/**
 * A hand-written recogniser for the subject-line pattern of
 * src/changelog.ts,
 *
 *     ^([^)]*)(?:\(([^)]*?)\)|):(.*?)(?:\[([^\]]+?)\]|)\s*$
 *
 * with the captures a backtracking matcher returns: the type is tried from
 * its longest candidate down, and for each type the title from its
 * shortest candidate up; the first combination that reaches the end of
 * the line wins.
 */
module CommitGrammar {
  import opened Wrappers
  import opened Strings

  /** The four capture groups: type, category, title and flag. */
  datatype Captures = Captures(kind: string, category: Option<string>, title: string, flag: Option<string>)

  // ---------------------------------------------------------------------
  // What a match is, without saying how one is found.

  function CategoryText(category: Option<string>): string {
    if category.Some? then "(" + category.value + ")" else ""
  }

  function FlagText(flag: Option<string>): string {
    if flag.Some? then "[" + flag.value + "]" else ""
  }

  /** The part of the line up to the end of the title. */
  function Head(c: Captures): string {
    c.kind + CategoryText(c.category) + ":" + c.title
  }

  predicate NoLineTerminator(s: string) {
    forall i :: 0 <= i < |s| ==> !IsLineTerminator(s[i])
  }

  /** `(?:\[([^\]]+?)\]|)\s*$` accepts `rest` with this flag capture. */
  predicate TailShape(rest: string, flag: Option<string>) {
    && (flag.Some? ==> flag.value != [] && ']' !in flag.value)
    && |FlagText(flag)| <= |rest|
    && rest[..|FlagText(flag)|] == FlagText(flag)
    && AllWhitespace(rest[|FlagText(flag)|..])
  }

  /** The whole pattern accepts `s` with captures `c`. */
  predicate IsMatch(s: string, c: Captures) {
    && ')' !in c.kind
    && (c.category.Some? ==> ')' !in c.category.value)
    && NoLineTerminator(c.title)
    && |Head(c)| <= |s|
    && s[..|Head(c)|] == Head(c)
    && TailShape(s[|Head(c)|..], c.flag)
  }

  /** The matcher's preference between two ways of matching the same line:
      a longer type first, then a shorter title. */
  predicate Preferred(c: Captures, d: Captures) {
    |c.kind| > |d.kind| || (|c.kind| == |d.kind| && |c.title| <= |d.title|)
  }

  // ---------------------------------------------------------------------
  // The recogniser.

  /** The first position at or after `from` holding `c`, or `|s|`. */
  function IndexOf(s: string, c: char, from: nat): (r: nat)
    requires from <= |s|
    ensures from <= r <= |s|
    ensures r < |s| ==> s[r] == c
    ensures forall i :: from <= i < r ==> s[i] != c
    decreases |s| - from
  {
    if from == |s| || s[from] == c then from else IndexOf(s, c, from + 1)
  }

  /** `IndexOf` is the position of the first `c` from `from` on. */
  lemma IndexOfAt(s: string, c: char, from: nat, m: nat)
    requires from <= m <= |s|
    requires m < |s| ==> s[m] == c
    requires forall i :: from <= i < m ==> s[i] != c
    ensures IndexOf(s, c, from) == m
  {
  }

  /** What follows the title: a bracketed flag then white space, or only
      white space. */
  function Tail(rest: string): (r: Option<Option<string>>)
  {
    if rest != [] && rest[0] == '[' then
      var j := IndexOf(rest, ']', 1);
      if 1 < j < |rest| && AllWhitespace(rest[j + 1..]) then Some(Some(rest[1..j])) else None
    else if AllWhitespace(rest) then Some(None)
    else None
  }

  /** The lazy title `(.*?)`: the first end position, from `k` on, after
      which the tail matches; the title cannot run past a line terminator. */
  function TitleEnd(s: string, k: nat): (r: Option<(nat, Option<string>)>)
    requires k <= |s|
    ensures r.Some? ==> k <= r.value.0 <= |s|
    decreases |s| - k
  {
    match Tail(s[k..])
    case Some(f) => Some((k, f))
    case None => if k < |s| && !IsLineTerminator(s[k]) then TitleEnd(s, k + 1) else None
  }

  /** The captures once the type is `s[..i]`, the category is known and
      the title starts at `p`. */
  function WithTitle(s: string, i: nat, category: Option<string>, p: nat): Option<Captures>
    requires i <= p <= |s|
  {
    match TitleEnd(s, p)
    case Some(t) => Some(Captures(s[..i], category, s[p..t.0], t.1))
    case None => None
  }

  /** The match whose type is `s[..i]`, if there is one. */
  function MatchWithType(s: string, i: nat): Option<Captures>
    requires i <= |s|
  {
    if i < |s| && s[i] == '(' then Bracketed(s, i, IndexOf(s, ')', i + 1))
    else if i < |s| && s[i] == ':' then WithTitle(s, i, None, i + 1)
    else None
  }

  /** The match whose type is `s[..i]` and whose category closes at `j`. */
  function Bracketed(s: string, i: nat, j: nat): Option<Captures>
    requires i < j <= |s|
  {
    if j + 1 < |s| && s[j + 1] == ':' then WithTitle(s, i, Some(s[i + 1..j]), j + 2) else None
  }

  /** The greedy type `([^)]*)`: candidates from `s[..i]` down to the empty one. */
  function MatchFrom(s: string, i: nat): Option<Captures>
    requires i <= |s|
    decreases i
  {
    var here := MatchWithType(s, i);
    if here.Some? then here
    else if i == 0 then None
    else MatchFrom(s, i - 1)
  }

  /** `COMMIT_REGEX.exec(line)`. The type cannot extend past the first `)`. */
  function Exec(line: string): Option<Captures> {
    MatchFrom(line, IndexOf(line, ')', 0))
  }

  // ---------------------------------------------------------------------
  // The recogniser finds exactly the preferred match.

  lemma TailSound(rest: string)
    requires Tail(rest).Some?
    ensures TailShape(rest, Tail(rest).value)
  {
    if rest != [] && rest[0] == '[' {
      var j := IndexOf(rest, ']', 1);
      var f := rest[1..j];
      assert FlagText(Some(f)) == rest[..j + 1];
      assert ']' !in f by {
        forall i | 0 <= i < |f| ensures f[i] != ']' { assert f[i] == rest[i + 1]; }
      }
    }
  }

  lemma TailComplete(rest: string, flag: Option<string>)
    requires TailShape(rest, flag)
    ensures Tail(rest) == Some(flag)
  {
    if flag.Some? {
      var f := flag.value;
      assert rest[0] == '[';
      assert forall i :: 1 <= i < |f| + 1 ==> rest[i] == f[i - 1];
      assert rest[|f| + 1] == ']';
      assert rest[1..|f| + 1] == f;
    } else {
      assert rest[..0] == [];
    }
  }

  lemma {:induction false} TitleEndSound(s: string, k: nat)
    requires k <= |s|
    requires TitleEnd(s, k).Some?
    ensures NoLineTerminator(s[k..TitleEnd(s, k).value.0])
    ensures Tail(s[TitleEnd(s, k).value.0..]) == Some(TitleEnd(s, k).value.1)
    decreases |s| - k
  {
    if Tail(s[k..]).None? {
      TitleEndSound(s, k + 1);
      var e := TitleEnd(s, k).value.0;
      assert s[k..e] == [s[k]] + s[k + 1..e];
    }
  }

  /** The lazy title ends no later than any end position that would do. */
  lemma {:induction false} TitleEndComplete(s: string, k: nat, e: nat)
    requires k <= e <= |s|
    requires NoLineTerminator(s[k..e])
    requires Tail(s[e..]).Some?
    ensures TitleEnd(s, k).Some? && TitleEnd(s, k).value.0 <= e
    decreases e - k
  {
    if Tail(s[k..]).None? {
      assert k != e;
      assert s[k..e][0] == s[k];
      assert s[k + 1..e] == s[k..e][1..];
      TitleEndComplete(s, k + 1, e);
    }
  }

  lemma Cut(s: string, a: nat, b: nat, c: nat)
    requires a <= b <= c <= |s|
    ensures s[a..c] == s[a..b] + s[b..c]
  {
  }

  lemma NotInSlice(s: string, ch: char, a: nat, b: nat)
    requires a <= b <= |s|
    requires forall x :: a <= x < b ==> s[x] != ch
    ensures ch !in s[a..b]
  {
    forall x | 0 <= x < b - a ensures s[a..b][x] != ch {
      assert s[a..b][x] == s[a + x];
    }
  }

  /** Where the title starts in a line that matches `c`. */
  function TitleStart(c: Captures): nat {
    |c.kind| + |CategoryText(c.category)| + 1
  }

  lemma HeadLayout(c: Captures)
    ensures |Head(c)| == TitleStart(c) + |c.title|
    ensures Head(c)[..|c.kind|] == c.kind
    ensures Head(c)[TitleStart(c) - 1] == ':'
    ensures Head(c)[TitleStart(c)..] == c.title
    ensures c.category.None? ==> TitleStart(c) == |c.kind| + 1
    ensures c.category.Some? ==>
      var n, k := |c.kind|, c.category.value;
      && TitleStart(c) == n + |k| + 3
      && Head(c)[n] == '('
      && Head(c)[n + 1..n + 1 + |k|] == k
      && Head(c)[n + 1 + |k|] == ')'
  {
    var rest := CategoryText(c.category) + ":" + c.title;
    assert Head(c) == c.kind + rest;
    if c.category.Some? {
      var k := c.category.value;
      assert rest == ['('] + k + [')', ':'] + c.title;
    }
  }

  lemma WithTitleSound(s: string, i: nat, category: Option<string>, p: nat)
    requires i <= p <= |s|
    requires WithTitle(s, i, category, p).Some?
    ensures var c := WithTitle(s, i, category, p).value;
      && c.kind == s[..i] && c.category == category
      && p + |c.title| <= |s| && c.title == s[p..p + |c.title|]
      && NoLineTerminator(c.title)
      && Tail(s[p + |c.title|..]) == Some(c.flag)
  {
    TitleEndSound(s, p);
  }

  lemma SoundWithCategory(s: string, i: nat, j: nat, c: Captures)
    requires i < |s| && s[i] == '(' && forall x :: 0 <= x < i ==> s[x] != ')'
    requires j == IndexOf(s, ')', i + 1) && j + 1 < |s| && s[j + 1] == ':'
    requires WithTitle(s, i, Some(s[i + 1..j]), j + 2) == Some(c)
    ensures IsMatch(s, c)
  {
    WithTitleSound(s, i, Some(s[i + 1..j]), j + 2);
    var e := j + 2 + |c.title|;
    CategoryMatch(s, i, j, e, c.flag);
    assert c == Captures(s[..i], Some(s[i + 1..j]), s[j + 2..e], c.flag);
  }

  lemma CategoryMatch(s: string, i: nat, j: nat, e: nat, f: Option<string>)
    requires i < j && j + 2 <= e <= |s|
    requires forall x :: 0 <= x < i ==> s[x] != ')'
    requires forall x :: i + 1 <= x < j ==> s[x] != ')'
    requires s[i] == '(' && s[j] == ')' && s[j + 1] == ':'
    requires NoLineTerminator(s[j + 2..e])
    requires Tail(s[e..]) == Some(f)
    ensures IsMatch(s, Captures(s[..i], Some(s[i + 1..j]), s[j + 2..e], f))
  {
    var c := Captures(s[..i], Some(s[i + 1..j]), s[j + 2..e], f);
    TailSound(s[e..]);
    NotInSlice(s, ')', i + 1, j);
    NotInSlice(s, ')', 0, i);
    calc {
      Head(c);
      s[..i] + ("(" + s[i + 1..j] + ")") + ":" + s[j + 2..e];
      s[..i] + ([s[i]] + (s[i + 1..j] + ([s[j]] + ([s[j + 1]] + s[j + 2..e]))));
      { assert [s[j + 1]] + s[j + 2..e] == s[j + 1..e]; }
      s[..i] + ([s[i]] + (s[i + 1..j] + ([s[j]] + s[j + 1..e])));
      { assert [s[j]] + s[j + 1..e] == s[j..e]; }
      s[..i] + ([s[i]] + (s[i + 1..j] + s[j..e]));
      { Cut(s, i + 1, j, e); }
      s[..i] + ([s[i]] + s[i + 1..e]);
      { assert [s[i]] + s[i + 1..e] == s[i..e]; }
      s[..i] + s[i..e];
      { Cut(s, 0, i, e); }
      s[..e];
    }
  }

  lemma SoundWithoutCategory(s: string, i: nat, c: Captures)
    requires i < |s| && s[i] == ':' && forall x :: 0 <= x < i ==> s[x] != ')'
    requires WithTitle(s, i, None, i + 1) == Some(c)
    ensures IsMatch(s, c)
  {
    WithTitleSound(s, i, None, i + 1);
    var e := i + 1 + |c.title|;
    assert c == Captures(s[..i], None, s[i + 1..e], c.flag);
    PlainMatch(s, i, e, c.flag);
  }

  lemma PlainMatch(s: string, i: nat, e: nat, f: Option<string>)
    requires i + 1 <= e <= |s|
    requires forall x :: 0 <= x < i ==> s[x] != ')'
    requires s[i] == ':'
    requires NoLineTerminator(s[i + 1..e])
    requires Tail(s[e..]) == Some(f)
    ensures IsMatch(s, Captures(s[..i], None, s[i + 1..e], f))
  {
    var c := Captures(s[..i], None, s[i + 1..e], f);
    TailSound(s[e..]);
    NotInSlice(s, ')', 0, i);
    calc {
      Head(c);
      s[..i] + ([s[i]] + s[i + 1..e]);
      { assert [s[i]] + s[i + 1..e] == s[i..e]; }
      s[..i] + s[i..e];
      { Cut(s, 0, i, e); }
      s[..e];
    }
  }

  lemma SoundWithType(s: string, i: nat)
    requires i <= IndexOf(s, ')', 0)
    requires MatchWithType(s, i).Some?
    ensures IsMatch(s, MatchWithType(s, i).value)
    ensures |MatchWithType(s, i).value.kind| == i
  {
    var c := MatchWithType(s, i).value;
    if i < |s| && s[i] == '(' {
      var j := IndexOf(s, ')', i + 1);
      SoundWithCategory(s, i, j, c);
    } else {
      SoundWithoutCategory(s, i, c);
    }
  }

  /** Facts every match gives about the line. */
  lemma MatchLayout(s: string, d: Captures)
    requires IsMatch(s, d)
    ensures var n, p := |d.kind|, TitleStart(d);
      && n < p <= p + |d.title| <= |s|
      && s[..n] == d.kind
      && IndexOf(s, ')', 0) >= n
      && s[p - 1] == ':'
      && s[p..p + |d.title|] == d.title
      && Tail(s[p + |d.title|..]) == Some(d.flag)
      && (d.category.None? ==> p == n + 1 && s[n] == ':')
      && (d.category.Some? ==>
            && s[n] == '('
            && IndexOf(s, ')', n + 1) == n + 1 + |d.category.value|
            && s[n + 1..n + 1 + |d.category.value|] == d.category.value
            && p == n + |d.category.value| + 3)
  {
    MatchTitle(s, d);
    MatchKind(s, d);
    if d.category.Some? {
      MatchCategory(s, d);
    }
  }

  lemma MatchTitle(s: string, d: Captures)
    requires IsMatch(s, d)
    ensures var p := TitleStart(d);
      && |d.kind| < p <= p + |d.title| <= |s|
      && s[p - 1] == ':'
      && s[p..p + |d.title|] == d.title
      && NoLineTerminator(s[p..p + |d.title|])
      && Tail(s[p + |d.title|..]) == Some(d.flag)
      && (d.category.None? ==> p == |d.kind| + 1)
  {
    var h := Head(d);
    var p := TitleStart(d);
    HeadLayout(d);
    assert s[p - 1] == h[p - 1];
    assert s[p..p + |d.title|] == h[p..];
    TailComplete(s[|h|..], d.flag);
  }

  lemma MatchKind(s: string, d: Captures)
    requires IsMatch(s, d)
    ensures |d.kind| < |s| && s[..|d.kind|] == d.kind
    ensures IndexOf(s, ')', 0) >= |d.kind|
  {
    var h := Head(d);
    var n := |d.kind|;
    HeadLayout(d);
    assert s[..n] == h[..n];
    assert forall x :: 0 <= x < n ==> s[x] == d.kind[x];
  }

  lemma MatchCategory(s: string, d: Captures)
    requires IsMatch(s, d) && d.category.Some?
    ensures var n, k := |d.kind|, d.category.value;
      && n + |k| + 3 <= |s|
      && s[n] == '('
      && IndexOf(s, ')', n + 1) == n + 1 + |k|
      && s[n + 1..n + 1 + |k|] == k
      && TitleStart(d) == n + |k| + 3
  {
    var h := Head(d);
    var n, k := |d.kind|, d.category.value;
    HeadLayout(d);
    SamePrefix(s, h, n + 1, n + 1 + |k|);
    assert s[n] == s[..|h|][n];
    assert s[n + 1 + |k|] == s[..|h|][n + 1 + |k|];
    CategoryClose(s, n, k);
  }

  /** A bracketed category without `)` inside closes at its own `)`. */
  lemma CategoryClose(s: string, n: nat, k: string)
    requires n + 2 + |k| <= |s| && ')' !in k
    requires s[n + 1..n + 1 + |k|] == k && s[n + 1 + |k|] == ')'
    ensures IndexOf(s, ')', n + 1) == n + 1 + |k|
  {
    forall x | n + 1 <= x < n + 1 + |k| ensures s[x] != ')' {
      assert s[x] == s[n + 1..n + 1 + |k|][x - n - 1];
    }
    IndexOfAt(s, ')', n + 1, n + 1 + |k|);
  }

  /** For the type of any match, the recogniser finds a match with the same
      type and a title no longer. */
  lemma CompleteWithType(s: string, d: Captures)
    requires IsMatch(s, d)
    ensures MatchWithType(s, |d.kind|).Some?
    ensures |MatchWithType(s, |d.kind|).value.title| <= |d.title|
  {
    if d.category.Some? {
      CompleteBracketed(s, d);
    } else {
      CompletePlain(s, d);
    }
  }

  lemma CompleteBracketed(s: string, d: Captures)
    requires IsMatch(s, d) && d.category.Some?
    ensures MatchWithType(s, |d.kind|).Some?
    ensures |MatchWithType(s, |d.kind|).value.title| <= |d.title|
  {
    MatchTitle(s, d);
    MatchCategory(s, d);
    var p := TitleStart(d);
    CompleteAt(s, |d.kind|, p, p + |d.title|, true);
  }

  lemma CompletePlain(s: string, d: Captures)
    requires IsMatch(s, d) && d.category.None?
    ensures MatchWithType(s, |d.kind|).Some?
    ensures |MatchWithType(s, |d.kind|).value.title| <= |d.title|
  {
    MatchTitle(s, d);
    var p := TitleStart(d);
    CompleteAt(s, |d.kind|, p, p + |d.title|, false);
  }

  /** Where a title may start at `p` and end at `e`, the recogniser finds a
      title from `p` no longer than that. */
  lemma CompleteAt(s: string, n: nat, p: nat, e: nat, bracketed: bool)
    requires n < p <= e <= |s| && s[p - 1] == ':'
    requires NoLineTerminator(s[p..e]) && Tail(s[e..]).Some?
    requires !bracketed ==> p == n + 1 && s[n] == ':'
    requires bracketed ==> n + 3 <= p && s[n] == '(' && IndexOf(s, ')', n + 1) == p - 2
    ensures MatchWithType(s, n).Some? && |MatchWithType(s, n).value.title| <= e - p
  {
    TitleEndComplete(s, p, e);
    if bracketed {
      CompleteCategory(s, n, p);
    } else {
      assert MatchWithType(s, n) == WithTitle(s, n, None, p);
    }
  }

  lemma CompleteCategory(s: string, n: nat, p: nat)
    requires n < |s| && s[n] == '(' && n + 3 <= p <= |s|
    requires IndexOf(s, ')', n + 1) == p - 2 && s[p - 1] == ':'
    ensures MatchWithType(s, n) == WithTitle(s, n, Some(s[n + 1..p - 2]), p)
  {
    assert MatchWithType(s, n) == Bracketed(s, n, p - 2);
  }

  lemma {:induction false} MatchFromSound(s: string, i: nat)
    requires i <= IndexOf(s, ')', 0)
    requires MatchFrom(s, i).Some?
    ensures IsMatch(s, MatchFrom(s, i).value)
    ensures |MatchFrom(s, i).value.kind| <= i
    decreases i
  {
    if MatchWithType(s, i).Some? {
      SoundWithType(s, i);
    } else {
      MatchFromSound(s, i - 1);
    }
  }

  lemma {:induction false} MatchFromComplete(s: string, i: nat, d: Captures)
    requires i <= IndexOf(s, ')', 0)
    requires IsMatch(s, d) && |d.kind| <= i
    ensures MatchFrom(s, i).Some? && Preferred(MatchFrom(s, i).value, d)
    decreases i
  {
    if MatchWithType(s, i).Some? {
      SoundWithType(s, i);
      if i == |d.kind| { CompleteWithType(s, d); }
    } else if i == |d.kind| {
      CompleteWithType(s, d);
    } else {
      MatchFromComplete(s, i - 1, d);
    }
  }

  /** Two matches with a type and a title of the same lengths are the same match. */
  lemma MatchUnique(s: string, c: Captures, d: Captures)
    requires IsMatch(s, c) && IsMatch(s, d)
    requires |c.kind| == |d.kind| && |c.title| == |d.title|
    ensures c == d
  {
    MatchKind(s, c);
    MatchKind(s, d);
    SameCategory(s, c, d);
    MatchTitle(s, c);
    MatchTitle(s, d);
  }

  lemma SameCategory(s: string, c: Captures, d: Captures)
    requires IsMatch(s, c) && IsMatch(s, d) && |c.kind| == |d.kind|
    ensures c.category == d.category && TitleStart(c) == TitleStart(d)
  {
    MatchTitle(s, c);
    MatchTitle(s, d);
    if c.category.Some? { MatchCategory(s, c); }
    if d.category.Some? { MatchCategory(s, d); }
  }

  /** `COMMIT_REGEX.exec` answers with `c` exactly when `c` is a match and
      every other match is one the matcher would try later. */
  lemma ExecSpec(line: string, c: Captures)
    ensures Exec(line) == Some(c) <==>
      IsMatch(line, c) && forall d :: IsMatch(line, d) ==> Preferred(c, d)
  {
    var m := IndexOf(line, ')', 0);
    if Exec(line) == Some(c) {
      MatchFromSound(line, m);
      forall d | IsMatch(line, d) ensures Preferred(c, d) {
        MatchLayout(line, d);
        MatchFromComplete(line, m, d);
      }
    }
    if IsMatch(line, c) && forall d :: IsMatch(line, d) ==> Preferred(c, d) {
      MatchLayout(line, c);
      MatchFromComplete(line, m, c);
      var r := Exec(line).value;
      MatchFromSound(line, m);
      assert Preferred(c, r);
      MatchUnique(line, c, r);
    }
  }

  /** `exec` fails exactly when nothing matches. */
  lemma ExecNone(line: string)
    ensures Exec(line).None? <==> forall d :: !IsMatch(line, d)
  {
    var m := IndexOf(line, ')', 0);
    if Exec(line).Some? {
      MatchFromSound(line, m);
    } else {
      forall d | IsMatch(line, d) ensures false {
        MatchLayout(line, d);
        MatchFromComplete(line, m, d);
      }
    }
  }

  /** Without parentheses the type is everything before the last colon:
      the longest type wins, and any colon can end one. */
  lemma LastColonType(s: string, i: nat)
    requires i < |s| && s[i] == ':'
    requires forall x :: 0 <= x < |s| ==> s[x] != '(' && s[x] != ')'
    requires NoLineTerminator(s)
    requires forall x :: i < x < |s| ==> s[x] != ':'
    ensures Exec(s).Some? && Exec(s).value.kind == s[..i] && Exec(s).value.category.None?
  {
    var t := s[i + 1..|s|];
    assert NoLineTerminator(t) by {
      forall x | 0 <= x < |t| ensures !IsLineTerminator(t[x]) {
        assert t[x] == s[i + 1 + x];
      }
    }
    assert Tail(s[|s|..]) == Some(None);
    PlainMatch(s, i, |s|, None);
    var d := Captures(s[..i], None, t, None);
    ExecNone(s);
    var c := Exec(s).value;
    ExecSpec(s, c);
    assert Preferred(c, d);
    MatchLayout(s, c);
  }

  /** `fix: a: b` has the type `fix: a`. */
  lemma NestedColonExample()
    ensures Exec("fix: a: b").Some? && Exec("fix: a: b").value.kind == "fix: a"
  {
    var s := "fix: a: b";
    assert s[..6] == "fix: a";
    LastColonType(s, 6);
  }
}
