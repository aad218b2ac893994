/**
 * Plain string helpers the changelog engine leans on: the JavaScript
 * whitespace classes, `trim` as the engine defines it, the `<`/`>` order
 * on strings, `split`/`join` on a one-character separator, and the sort
 * that `Array.prototype.sort` applies to a set of keys.
 */
module Strings {

  /** The characters JavaScript's `String.prototype.trim` and the regular
      expression class `\s` treat as white space (WhiteSpace and
      LineTerminator of ECMAScript). */
  predicate IsWhitespace(c: char) {
    || c == '\t' || c == '\n' || c == '\U{000B}' || c == '\U{000C}' || c == '\r'
    || c == ' ' || c == '\U{00A0}' || c == '\U{1680}'
    || ('\U{2000}' <= c <= '\U{200A}')
    || c == '\U{2028}' || c == '\U{2029}' || c == '\U{202F}' || c == '\U{205F}'
    || c == '\U{3000}' || c == '\U{FEFF}'
  }

  /** The characters the regular expression `.` does not match. */
  predicate IsLineTerminator(c: char) {
    c == '\n' || c == '\r' || c == '\U{2028}' || c == '\U{2029}'
  }

  predicate AllWhitespace(s: string) {
    forall i :: 0 <= i < |s| ==> IsWhitespace(s[i])
  }

  predicate NoDoubleSpace(s: string) {
    forall i :: 0 <= i < |s| - 1 ==> !(s[i] == ' ' && s[i + 1] == ' ')
  }

  /** The characters of `s` other than the plain space. */
  function WithoutSpaces(s: string): string {
    if s == [] then [] else (if s[0] == ' ' then [] else [s[0]]) + WithoutSpaces(s[1..])
  }

  /** Leading white space removed: what is left is a suffix of `s`, and what
      was cut off is all white space. */
  function TrimStart(s: string): (r: string)
    ensures |r| <= |s| && r == s[|s| - |r|..]
    ensures AllWhitespace(s[..|s| - |r|])
    ensures r == [] || !IsWhitespace(r[0])
  {
    if s != [] && IsWhitespace(s[0]) then
      var r := TrimStart(s[1..]);
      TrimStartStep(s, r);
      r
    else s
  }

  lemma TrimStartStep(s: string, r: string)
    requires s != [] && IsWhitespace(s[0]) && |r| < |s|
    requires r == s[1..][|s| - 1 - |r|..] && AllWhitespace(s[1..][..|s| - 1 - |r|])
    ensures r == s[|s| - |r|..] && AllWhitespace(s[..|s| - |r|])
  {
    var n := |s| - |r|;
    forall i | 0 <= i < n ensures IsWhitespace(s[i]) {
      if i > 0 {
        assert s[i] == s[1..][..n - 1][i - 1];
      }
    }
  }

  /** Trailing white space removed. */
  function TrimEnd(s: string): (r: string)
    ensures |r| <= |s| && r == s[..|r|]
    ensures AllWhitespace(s[|r|..])
    ensures r == [] || !IsWhitespace(r[|r| - 1])
  {
    if s != [] && IsWhitespace(s[|s| - 1]) then TrimEnd(s[..|s| - 1]) else s
  }

  /** `replace(/ {2,}/g, " ")`: every run of two or more spaces becomes one
      space. The first and last characters survive, no two spaces stay
      adjacent, and every character other than a space is kept in order. */
  function CollapseSpaces(s: string): (r: string)
    ensures NoDoubleSpace(r)
    ensures s == [] <==> r == []
    ensures s != [] ==> r[0] == s[0] && r[|r| - 1] == s[|s| - 1]
    ensures WithoutSpaces(r) == WithoutSpaces(s)
  {
    if s == [] then []
    else if |s| >= 2 && s[0] == ' ' && s[1] == ' ' then CollapseSpaces(s[1..])
    else [s[0]] + CollapseSpaces(s[1..])
  }

  /** The source's `trim`: `value.trim().replace(/ {2,}/g, " ")`. */
  function Trim(s: string): (r: string)
    ensures r == [] || (!IsWhitespace(r[0]) && !IsWhitespace(r[|r| - 1]))
    ensures NoDoubleSpace(r)
    ensures WithoutSpaces(r) == WithoutSpaces(TrimEnd(TrimStart(s)))
  {
    CollapseSpaces(TrimEnd(TrimStart(s)))
  }

  /** A string without two adjacent spaces is left alone by the collapsing step. */
  lemma {:induction false} CollapseSpacesFixed(s: string)
    requires NoDoubleSpace(s)
    ensures CollapseSpaces(s) == s
  {
    if s != [] {
      assert NoDoubleSpace(s[1..]) by {
        forall i | 0 <= i < |s[1..]| - 1 ensures !(s[1..][i] == ' ' && s[1..][i + 1] == ' ') {
          assert s[1..][i] == s[i + 1] && s[1..][i + 1] == s[i + 2];
        }
      }
      CollapseSpacesFixed(s[1..]);
    }
  }

  /** A string that is already trimmed is its own trim. */
  lemma TrimFixed(s: string)
    requires s == [] || (!IsWhitespace(s[0]) && !IsWhitespace(s[|s| - 1]))
    requires NoDoubleSpace(s)
    ensures Trim(s) == s
  {
    CollapseSpacesFixed(s);
  }

  /** Trimming twice is trimming once. */
  lemma TrimIdempotent(s: string)
    ensures Trim(Trim(s)) == Trim(s)
  {
    TrimFixed(Trim(s));
  }

  /** The non-empty strings of `xs`, in order. */
  function NonEmpty(xs: seq<string>): seq<string> {
    if xs == [] then [] else (if xs[0] == [] then [] else [xs[0]]) + NonEmpty(xs[1..])
  }

  /** The words of `s`: the non-empty pieces between plain spaces. */
  function Words(s: string): seq<string> {
    NonEmpty(Split(s, ' '))
  }

  /** Collapsing runs of spaces keeps the words and the leading piece (the
      text before the first space). */
  lemma {:induction false} CollapseSpacesWords(s: string)
    ensures Words(CollapseSpaces(s)) == Words(s)
    ensures Split(CollapseSpaces(s), ' ')[0] == Split(s, ' ')[0]
  {
    if s != [] {
      var t := s[1..];
      var r := CollapseSpaces(s);
      CollapseSpacesWords(t);
      var ct := CollapseSpaces(t);
      if s[0] == ' ' {
        assert Split(s, ' ') == [[]] + Split(t, ' ');
        assert ([[]] + Split(t, ' '))[1..] == Split(t, ' ');
        if |s| >= 2 && s[1] == ' ' {
          assert r == ct;
          assert Split(t, ' ')[0] == [];
        } else {
          assert r == [' '] + ct && r[1..] == ct;
          assert Split(r, ' ') == [[]] + Split(ct, ' ');
          assert ([[]] + Split(ct, ' '))[1..] == Split(ct, ' ');
        }
      } else {
        assert r == [s[0]] + ct && r[1..] == ct;
        SameTail(s[0], t, ct);
      }
    }
  }

  /** A word character in front of two strings with the same words and the
      same leading piece keeps both equal. */
  lemma SameTail(c: char, t: string, u: string)
    requires c != ' '
    requires Words(u) == Words(t) && Split(u, ' ')[0] == Split(t, ' ')[0]
    ensures Words([c] + u) == Words([c] + t)
    ensures Split([c] + u, ' ')[0] == Split([c] + t, ' ')[0]
  {
    var pt, pu := Split(t, ' '), Split(u, ' ');
    assert ([c] + t)[1..] == t && ([c] + u)[1..] == u;
    assert Split([c] + t, ' ') == [[c] + pt[0]] + pt[1..];
    assert Split([c] + u, ' ') == [[c] + pu[0]] + pu[1..];
    assert ([[c] + pt[0]] + pt[1..])[1..] == pt[1..];
    assert ([[c] + pu[0]] + pu[1..])[1..] == pu[1..];
    var h := if pt[0] == [] then [] else [pt[0]];
    assert Words(t) == h + NonEmpty(pt[1..]);
    assert Words(u) == h + NonEmpty(pu[1..]);
    assert NonEmpty(pt[1..]) == (h + NonEmpty(pt[1..]))[|h|..];
  }

  /** Without double spaces and with no space at either end, no piece of the
      split is empty, so the words are the pieces themselves. */
  lemma {:induction false} WordsArePieces(r: string)
    requires r != [] && r[0] != ' ' && r[|r| - 1] != ' '
    requires NoDoubleSpace(r)
    ensures Words(r) == Split(r, ' ')
  {
    var x := r[1..];
    if x == [] {
      assert Split(x, ' ') == [[]];
      assert [r[0]] + [] == [r[0]];
      assert Split(r, ' ') == [[r[0]]];
      assert NonEmpty([[r[0]]]) == [[r[0]]] + NonEmpty([]);
    } else if x[0] == ' ' {
      var y := x[1..];
      assert |y| >= 1 && y[0] == r[2] && y[|y| - 1] == r[|r| - 1];
      assert NoDoubleSpace(y) by {
        forall i | 0 <= i < |y| - 1 ensures !(y[i] == ' ' && y[i + 1] == ' ') {
          assert y[i] == r[i + 2] && y[i + 1] == r[i + 3];
        }
      }
      WordsArePieces(y);
      assert Split(x, ' ') == [[]] + Split(y, ' ');
      assert ([[]] + Split(y, ' '))[1..] == Split(y, ' ');
      assert [r[0]] + [] == [r[0]];
      assert Split(r, ' ') == [[r[0]] + Split(x, ' ')[0]] + Split(x, ' ')[1..];
      assert Split(r, ' ') == [[r[0]]] + Split(y, ' ');
      assert ([[r[0]]] + Split(y, ' '))[1..] == Split(y, ' ');
    } else {
      assert x[|x| - 1] == r[|r| - 1];
      assert NoDoubleSpace(x) by {
        forall i | 0 <= i < |x| - 1 ensures !(x[i] == ' ' && x[i + 1] == ' ') {
          assert x[i] == r[i + 1] && x[i + 1] == r[i + 2];
        }
      }
      WordsArePieces(x);
      var px := Split(x, ' ');
      assert px[0] != [] by { assert px == NonEmpty(px); }
      assert Split(r, ' ') == [[r[0]] + px[0]] + px[1..];
      assert ([[r[0]] + px[0]] + px[1..])[1..] == px[1..];
      assert NonEmpty(px) == [px[0]] + NonEmpty(px[1..]);
    }
  }

  /** The value of `trim`: the words of the input, its white-space ends cut
      off, joined by single spaces. */
  lemma TrimWords(s: string)
    ensures Trim(s) == Join(Words(TrimEnd(TrimStart(s))), ' ')
  {
    var t := TrimEnd(TrimStart(s));
    var r := Trim(s);
    CollapseSpacesWords(t);
    if r == [] {
      assert t == [];
      assert Words(t) == NonEmpty([[]]) == [];
    } else {
      WordsArePieces(r);
      JoinSplit(r, ' ');
    }
  }

  // ---------------------------------------------------------------------
  // String order: JavaScript's `a < b` on strings, taken character by
  // character on code points.

  predicate LessEq(a: string, b: string)
    decreases |a|
  {
    a == [] || (b != [] && (a[0] < b[0] || (a[0] == b[0] && LessEq(a[1..], b[1..]))))
  }

  predicate Less(a: string, b: string) {
    LessEq(a, b) && a != b
  }

  lemma {:induction false} LessEqReflexive(a: string)
    ensures LessEq(a, a)
  {
    if a != [] { LessEqReflexive(a[1..]); }
  }

  lemma {:induction false} LessEqAntisymmetric(a: string, b: string)
    requires LessEq(a, b) && LessEq(b, a)
    ensures a == b
  {
    if a != [] && b != [] {
      LessEqAntisymmetric(a[1..], b[1..]);
      assert a == [a[0]] + a[1..] && b == [b[0]] + b[1..];
    }
  }

  lemma {:induction false} LessEqTransitive(a: string, b: string, c: string)
    requires LessEq(a, b) && LessEq(b, c)
    ensures LessEq(a, c)
  {
    if a != [] && b != [] && c != [] && a[0] == b[0] && b[0] == c[0] {
      LessEqTransitive(a[1..], b[1..], c[1..]);
    }
  }

  lemma {:induction false} LessEqTotal(a: string, b: string)
    ensures LessEq(a, b) || LessEq(b, a)
  {
    if a != [] && b != [] && a[0] == b[0] {
      LessEqTotal(a[1..], b[1..]);
    }
  }

  predicate StrictlySorted(xs: seq<string>) {
    forall i, j :: 0 <= i < j < |xs| ==> Less(xs[i], xs[j])
  }

  predicate IsLeast(m: string, s: set<string>) {
    m in s && forall x :: x in s ==> LessEq(m, x)
  }

  lemma {:induction false} LeastExists(s: set<string>)
    requires s != {}
    ensures exists m :: IsLeast(m, s)
    decreases |s|
  {
    var y :| y in s;
    var rest := s - {y};
    if rest == {} {
      assert s == {y};
      LessEqReflexive(y);
      assert IsLeast(y, s);
    } else {
      LeastExists(rest);
      var m :| IsLeast(m, rest);
      LessEqTotal(m, y);
      if LessEq(m, y) {
        assert IsLeast(m, s);
      } else {
        forall x | x in s ensures LessEq(y, x) {
          if x == y { LessEqReflexive(y); } else { LessEqTransitive(y, m, x); }
        }
        assert IsLeast(y, s);
      }
    }
  }

  lemma LeastUnique(m: string, n: string, s: set<string>)
    requires IsLeast(m, s) && IsLeast(n, s)
    ensures m == n
  {
    LessEqAntisymmetric(m, n);
  }

  /** The elements of a finite set of strings in ascending order: what the
      source's `Object.keys(...).sort()` gives. */
  ghost function SortSet(s: set<string>): (r: seq<string>)
    ensures StrictlySorted(r)
    ensures forall x :: x in r <==> x in s
    decreases |s|
  {
    if s == {} then []
    else
      LeastExists(s);
      var m :| IsLeast(m, s);
      var rest := SortSet(s - {m});
      LeastBelowRest(m, s, rest);
      [m] + rest
  }

  lemma LeastBelowRest(m: string, s: set<string>, rest: seq<string>)
    requires IsLeast(m, s)
    requires forall x :: x in rest <==> x in s - {m}
    ensures forall j :: 0 <= j < |rest| ==> Less(m, rest[j])
  {
    forall j | 0 <= j < |rest| ensures Less(m, rest[j]) {
      assert rest[j] in rest;
    }
  }

  /** A strictly sorted listing of a set is the only one there is. */
  lemma SortSetUnique(s: set<string>, r: seq<string>)
    requires StrictlySorted(r)
    requires forall x :: x in r <==> x in s
    ensures r == SortSet(s)
  {
    ListingsEqual(s, r, SortSet(s));
  }

  lemma HeadIn<T>(q: seq<T>)
    ensures q != [] ==> q[0] in q
  {
  }

  /** Two strictly sorted listings of the same set are equal. */
  lemma {:induction false} ListingsEqual(s: set<string>, r: seq<string>, q: seq<string>)
    requires StrictlySorted(r) && StrictlySorted(q)
    requires forall x :: x in r <==> x in s
    requires forall x :: x in q <==> x in s
    ensures r == q
    decreases |s|
  {
    if r == [] {
      HeadIn(q);
    } else {
      assert r[0] in s && r[0] in q;
      SortedListing(s, r);
      SortedListing(s, q);
      LeastUnique(r[0], q[0], s);
      ListingsEqual(s - {r[0]}, r[1..], q[1..]);
      assert r == [r[0]] + r[1..] && q == [q[0]] + q[1..];
    }
  }

  /** The head of a non-empty sorted listing is the least element, and the
      rest lists the remaining elements. */
  lemma SortedListing(s: set<string>, r: seq<string>)
    requires StrictlySorted(r) && r != []
    requires forall x :: x in r <==> x in s
    ensures IsLeast(r[0], s)
    ensures StrictlySorted(r[1..])
    ensures forall x :: x in r[1..] <==> x in s - {r[0]}
  {
    forall x | x in s ensures LessEq(r[0], x) {
      var j :| 0 <= j < |r| && r[j] == x;
      if j == 0 { LessEqReflexive(x); }
    }
    forall x ensures x in r[1..] <==> x in s - {r[0]} {
      if x in r[1..] {
        var j :| 1 <= j < |r| && r[j] == x;
        assert Less(r[0], r[j]);
      }
      if x in s - {r[0]} {
        var j :| 0 <= j < |r| && r[j] == x;
        assert r[1..][j - 1] == x;
      }
    }
    forall i, j | 0 <= i < j < |r[1..]| ensures Less(r[1..][i], r[1..][j]) {
      assert r[1..][i] == r[i + 1] && r[1..][j] == r[j + 1];
    }
  }

  /** Picks the least element of a non-empty set by one pass over it. */
  method FindLeast(s: set<string>) returns (m: string)
    requires s != {}
    ensures IsLeast(m, s)
  {
    m :| m in s;
    LessEqReflexive(m);
    var rest := s - {m};
    while rest != {}
      invariant rest <= s && m in s
      invariant forall y :: y in s - rest ==> LessEq(m, y)
      decreases |rest|
    {
      var x :| x in rest;
      LessEqTotal(m, x);
      if !LessEq(m, x) {
        forall y | y in s - rest ensures LessEq(x, y) {
          LessEqTransitive(x, m, y);
        }
        LessEqReflexive(x);
        m := x;
      }
      rest := rest - {x};
    }
  }

  /** Sorts the keys of a map, as `Object.keys(group).sort()` does. */
  method SortKeys(s: set<string>) returns (r: seq<string>)
    ensures r == SortSet(s)
  {
    r := [];
    var remaining := s;
    while remaining != {}
      invariant remaining <= s
      invariant forall x :: x in r <==> x in s - remaining
      invariant StrictlySorted(r)
      invariant forall i, y :: 0 <= i < |r| && y in remaining ==> Less(r[i], y)
      decreases |remaining|
    {
      var m := FindLeast(remaining);
      forall i, y | 0 <= i < |r| && y in remaining - {m} ensures Less(r[i], y) {
        assert Less(r[i], m);
        LessEqTransitive(r[i], m, y);
        if r[i] == y { LessEqAntisymmetric(m, y); }
      }
      r := r + [m];
      remaining := remaining - {m};
    }
    SortSetUnique(s, r);
  }

  /** Concatenation regrouped, stated once so that longer proofs can use it
      without searching for it. */
  lemma AppendAssociative<T>(a: seq<T>, b: seq<T>, c: seq<T>)
    ensures a + (b + c) == (a + b) + c
  {
  }

  /** Dropping from the front of a concatenation drops from its first part. */
  lemma DropAppend<T>(a: seq<T>, b: seq<T>, n: nat)
    requires n <= |a|
    ensures (a + b)[n..] == a[n..] + b
  {
  }

  /** A slice inside the middle part of a concatenation is a slice of that part. */
  lemma MiddleSlice<T>(a: seq<T>, b: seq<T>, c: seq<T>, lo: nat, hi: nat)
    requires lo <= hi <= |b|
    ensures |a| + hi <= |a + b + c|
    ensures (a + b + c)[|a| + lo..|a| + hi] == b[lo..hi]
  {
    assert forall x :: lo <= x < hi ==> (a + b + c)[|a| + x] == b[x];
  }

  /** A slice of a known prefix is a slice of the whole. */
  lemma SamePrefix<T>(s: seq<T>, h: seq<T>, lo: nat, hi: nat)
    requires lo <= hi <= |h| <= |s| && s[..|h|] == h
    ensures s[lo..hi] == h[lo..hi]
  {
    assert forall x :: lo <= x < hi ==> s[x] == s[..|h|][x];
  }

  // ---------------------------------------------------------------------
  // `split` and `join` on a one-character separator.

  /** JavaScript's `s.split(sep)`: the pieces between separators, so the
      empty string splits into one empty piece. */
  function Split(s: string, sep: char): (r: seq<string>)
    ensures |r| >= 1
    ensures forall i :: 0 <= i < |r| ==> sep !in r[i]
  {
    if s == [] then [[]]
    else
      var rest := Split(s[1..], sep);
      if s[0] == sep then [[]] + rest
      else [[s[0]] + rest[0]] + rest[1..]
  }

  /** JavaScript's `xs.join(sep)`. */
  function Join(xs: seq<string>, sep: char): string {
    if |xs| == 0 then []
    else if |xs| == 1 then xs[0]
    else xs[0] + [sep] + Join(xs[1..], sep)
  }

  /** Where piece `i` of a join starts: after each earlier piece and its
      separator. */
  function Offset(xs: seq<string>, i: nat): nat
    requires i <= |xs|
  {
    if i == 0 then 0 else |xs[0]| + 1 + Offset(xs[1..], i - 1)
  }

  /** The next piece starts one separator after the end of this one. */
  lemma {:induction false} OffsetStep(xs: seq<string>, i: nat)
    requires i < |xs|
    ensures Offset(xs, i + 1) == Offset(xs, i) + |xs[i]| + 1
  {
    if i > 0 {
      OffsetStep(xs[1..], i - 1);
    }
  }

  /** Piece `i` sits in the join at `Offset(xs, i)`, and a separator follows
      it unless it is the last piece. */
  lemma {:induction false} JoinHas(xs: seq<string>, sep: char, i: nat) returns (p: nat)
    requires i < |xs|
    ensures p == Offset(xs, i)
    ensures p + |xs[i]| <= |Join(xs, sep)|
    ensures Join(xs, sep)[p..p + |xs[i]|] == xs[i]
    ensures i + 1 < |xs| ==> p + |xs[i]| < |Join(xs, sep)| && Join(xs, sep)[p + |xs[i]|] == sep
  {
    if i == 0 {
      p := 0;
      if |xs| > 1 {
        var j := Join(xs, sep);
        assert j == xs[0] + ([sep] + Join(xs[1..], sep));
        assert j[..|xs[0]|] == xs[0];
      }
    } else {
      var q := JoinHas(xs[1..], sep, i - 1);
      var tail := Join(xs[1..], sep);
      var head := xs[0] + [sep];
      assert Join(xs, sep) == head + tail;
      p := |head| + q;
      assert (head + tail)[p..p + |xs[i]|] == tail[q..q + |xs[i]|];
      if i + 1 < |xs| {
        assert (head + tail)[p + |xs[i]|] == tail[q + |xs[i]|];
      }
    }
  }

  /** Joining the pieces of a split gives the string back. */
  lemma {:induction false} JoinSplit(s: string, sep: char)
    ensures Join(Split(s, sep), sep) == s
  {
    if s != [] {
      var rest := Split(s[1..], sep);
      JoinSplit(s[1..], sep);
      if s[0] == sep {
        assert Split(s, sep) == [[]] + rest;
        assert ([[]] + rest)[1..] == rest;
      } else {
        var r := Split(s, sep);
        assert r == [[s[0]] + rest[0]] + rest[1..];
        if |rest| == 1 {
          assert r == [[s[0]] + rest[0]];
        } else {
          assert r[1..] == rest[1..];
          assert Join(rest, sep) == rest[0] + [sep] + Join(rest[1..], sep);
        }
      }
    }
  }

  /** A piece without a separator in it splits into itself. */
  lemma {:induction false} SplitPiece(a: string, b: string, sep: char)
    requires sep !in a
    ensures Split(a + [sep] + b, sep) == [a] + Split(b, sep)
    ensures Split(a, sep) == [a]
  {
    if a != [] {
      SplitPiece(a[1..], b, sep);
      assert (a + [sep] + b)[1..] == a[1..] + [sep] + b;
      assert a == [a[0]] + a[1..];
    } else {
      assert [] + [sep] + b == [sep] + b;
      assert ([sep] + b)[1..] == b;
    }
  }

  /** Splitting a join of separator-free pieces gives the pieces back. */
  lemma {:induction false} SplitJoin(xs: seq<string>, sep: char)
    requires |xs| >= 1
    requires forall i :: 0 <= i < |xs| ==> sep !in xs[i]
    ensures Split(Join(xs, sep), sep) == xs
  {
    if |xs| == 1 {
      SplitPiece(xs[0], [], sep);
    } else {
      SplitJoin(xs[1..], sep);
      SplitPiece(xs[0], Join(xs[1..], sep), sep);
      assert xs == [xs[0]] + xs[1..];
    }
  }
}
