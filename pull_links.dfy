/**
 * The pull-request rewrite applied to every changelog title in
 * src/changelog.ts: each `#<pull>` whose number starts with a non-zero
 * digit becomes a Markdown link `[#<pull>](<repoUrl>/pull/<pull>)`.
 * Matches are taken left to right, the number as long as possible, and
 * the text a replacement inserts is not scanned again.
 */
module PullLinks {
  import opened Strings

  /** `\d` of a JavaScript regular expression without the `u` flag. */
  predicate IsDigit(c: char) {
    '0' <= c <= '9'
  }

  predicate IsNonZeroDigit(c: char) {
    '1' <= c <= '9'
  }

  /** The longest run of digits at the start of `s`. */
  function DigitRun(s: string): (r: string)
    ensures |r| <= |s| && r == s[..|r|]
    ensures forall i :: 0 <= i < |r| ==> IsDigit(r[i])
    ensures |r| == |s| || !IsDigit(s[|r|])
  {
    if s != [] && IsDigit(s[0]) then [s[0]] + DigitRun(s[1..]) else []
  }

  /** `s` starts with a reference: `#` then a digit from 1 to 9. */
  predicate StartsRef(s: string) {
    |s| >= 2 && s[0] == '#' && IsNonZeroDigit(s[1])
  }

  /** Some position of `s` starts a reference. */
  predicate HasRef(s: string) {
    exists i :: 0 <= i < |s| - 1 && s[i] == '#' && IsNonZeroDigit(s[i + 1])
  }

  /** The text that replaces `#<pull>`. */
  function Link(pull: string, repoUrl: string): string {
    "[#" + pull + "](" + repoUrl + "/pull/" + pull + ")"
  }

  /** `title.replace(/#([1-9]\d*)/g, ...)`. The result is never shorter, and
      it is strictly longer as soon as there is something to replace. */
  function Rewrite(s: string, repoUrl: string): (r: string)
    ensures |r| >= |s|
    ensures StartsRef(s) ==> |r| > |s|
    decreases |s|
  {
    if s == [] then []
    else if StartsRef(s) then
      var pull := DigitRun(s[1..]);
      Link(pull, repoUrl) + Rewrite(s[1 + |pull|..], repoUrl)
    else [s[0]] + Rewrite(s[1..], repoUrl)
  }

  /** A title is left exactly as it is if and only if it holds no reference. */
  lemma {:induction false} RewriteUnchanged(s: string, repoUrl: string)
    ensures Rewrite(s, repoUrl) == s <==> !HasRef(s)
    decreases |s|
  {
    if s != [] && !StartsRef(s) {
      RewriteUnchanged(s[1..], repoUrl);
      assert HasRef(s) <==> HasRef(s[1..]) by {
        if HasRef(s) {
          var i :| 0 <= i < |s| - 1 && s[i] == '#' && IsNonZeroDigit(s[i + 1]);
          assert i != 0;
          assert s[1..][i - 1] == s[i] && s[1..][i] == s[i + 1];
        }
        if HasRef(s[1..]) {
          var i :| 0 <= i < |s[1..]| - 1 && s[1..][i] == '#' && IsNonZeroDigit(s[1..][i + 1]);
          assert s[i + 1] == '#' && IsNonZeroDigit(s[i + 2]);
        }
      }
    } else if s != [] {
      assert s[0] == '#' && IsNonZeroDigit(s[1]);
    }
  }

  lemma {:induction false} DigitRunAppend(a: string, b: string)
    requires forall i :: 0 <= i < |a| ==> IsDigit(a[i])
    requires b == [] || !IsDigit(b[0])
    ensures DigitRun(a + b) == a
  {
    if a == [] {
      assert a + b == b;
    } else {
      DigitRunAppend(a[1..], b);
      assert (a + b)[1..] == a[1..] + b;
      assert a == [a[0]] + a[1..];
    }
  }

  /** `#` and a number made of the digits `pull`, followed by something that
      is not a digit, becomes exactly one link. */
  lemma RewriteRef(pull: string, rest: string, repoUrl: string)
    requires pull != [] && IsNonZeroDigit(pull[0])
    requires forall i :: 0 <= i < |pull| ==> IsDigit(pull[i])
    requires rest == [] || !IsDigit(rest[0])
    ensures Rewrite("#" + pull + rest, repoUrl) == Link(pull, repoUrl) + Rewrite(rest, repoUrl)
  {
    var s := "#" + pull + rest;
    assert s[1..] == pull + rest;
    DigitRunAppend(pull, rest);
    assert s[1 + |pull|..] == rest;
  }

  /** A number with a leading zero is not a reference: `#0` stays as it is. */
  lemma RewriteZero(rest: string, repoUrl: string)
    ensures Rewrite("#0" + rest, repoUrl) == "#0" + Rewrite(rest, repoUrl)
  {
    var s := "#0" + rest;
    assert s[1..] == "0" + rest;
    assert s[1..][1..] == rest;
  }

  /** The rewrite works piece by piece wherever the cut does not split a
      number: two parts are rewritten independently when the second does
      not start with a digit. */
  lemma {:induction false} RewriteAppend(a: string, b: string, repoUrl: string)
    requires b == [] || !IsDigit(b[0])
    ensures Rewrite(a + b, repoUrl) == Rewrite(a, repoUrl) + Rewrite(b, repoUrl)
    decreases |a|
  {
    if a == [] {
      assert a + b == b;
    } else if StartsRef(a) {
      var rest := a[1 + |DigitRun(a[1..])|..];
      RewriteAppend(rest, b, repoUrl);
      RefStep(a, b, repoUrl);
    } else {
      RewriteAppend(a[1..], b, repoUrl);
      PlainStep(a, b, repoUrl);
    }
  }

  lemma RefStep(a: string, b: string, repoUrl: string)
    requires StartsRef(a)
    requires b == [] || !IsDigit(b[0])
    requires var rest := a[1 + |DigitRun(a[1..])|..];
      Rewrite(rest + b, repoUrl) == Rewrite(rest, repoUrl) + Rewrite(b, repoUrl)
    ensures Rewrite(a + b, repoUrl) == Rewrite(a, repoUrl) + Rewrite(b, repoUrl)
  {
    var pull := DigitRun(a[1..]);
    var rest := a[1 + |pull|..];
    RefHeadAppend(a, b, repoUrl);
    AppendAssociative(Link(pull, repoUrl), Rewrite(rest, repoUrl), Rewrite(b, repoUrl));
  }

  /** The reference that starts `a` also starts `a + b`, and the rest of `a`
      is followed by `b`. */
  lemma RefHeadAppend(a: string, b: string, repoUrl: string)
    requires StartsRef(a)
    requires b == [] || !IsDigit(b[0])
    ensures var pull := DigitRun(a[1..]);
      var rest := a[1 + |pull|..];
      && Rewrite(a, repoUrl) == Link(pull, repoUrl) + Rewrite(rest, repoUrl)
      && Rewrite(a + b, repoUrl) == Link(pull, repoUrl) + Rewrite(rest + b, repoUrl)
  {
    var pull := DigitRun(a[1..]);
    RefAppend(a, b);
    RefHead(a + b, pull, a[1 + |pull|..] + b, repoUrl);
  }

  /** How a reference at the start is rewritten. */
  lemma RefHead(s: string, pull: string, rest: string, repoUrl: string)
    requires StartsRef(s) && pull == DigitRun(s[1..]) && rest == s[1 + |pull|..]
    ensures Rewrite(s, repoUrl) == Link(pull, repoUrl) + Rewrite(rest, repoUrl)
  {
  }

  lemma PlainStep(a: string, b: string, repoUrl: string)
    requires a != [] && !StartsRef(a)
    requires b == [] || !IsDigit(b[0])
    requires Rewrite(a[1..] + b, repoUrl) == Rewrite(a[1..], repoUrl) + Rewrite(b, repoUrl)
    ensures Rewrite(a + b, repoUrl) == Rewrite(a, repoUrl) + Rewrite(b, repoUrl)
  {
    PlainAppend(a, b);
    AppendAssociative([a[0]], Rewrite(a[1..], repoUrl), Rewrite(b, repoUrl));
  }

  lemma RefAppend(a: string, b: string)
    requires StartsRef(a)
    requires b == [] || !IsDigit(b[0])
    ensures var pull := DigitRun(a[1..]);
      && StartsRef(a + b)
      && DigitRun((a + b)[1..]) == pull
      && (a + b)[1 + |pull|..] == a[1 + |pull|..] + b
  {
    var pull := DigitRun(a[1..]);
    var rest := a[1 + |pull|..];
    DropAppend(a, b, 1);
    DropAppend(a, b, 1 + |pull|);
    DropAppend(a[1..], b, |pull|);
    RunThenRest(a[1..], b);
    DigitRunAppend(pull, rest + b);
  }

  /** What follows the digit run of `t` does not start with a digit, and the
      run and the rest make up `t` again. */
  lemma RunThenRest(t: string, b: string)
    requires b == [] || !IsDigit(b[0])
    ensures var pull := DigitRun(t);
      var rest := t[|pull|..];
      && t + b == pull + (rest + b)
      && (rest + b == [] || !IsDigit((rest + b)[0]))
  {
    var pull := DigitRun(t);
    var rest := t[|pull|..];
    assert t == pull + rest;
    AppendAssociative(pull, rest, b);
    if rest == [] {
      assert rest + b == b;
    }
  }

  lemma PlainAppend(a: string, b: string)
    requires a != [] && !StartsRef(a)
    requires b == [] || !IsDigit(b[0])
    ensures !StartsRef(a + b) && (a + b)[0] == a[0] && (a + b)[1..] == a[1..] + b
  {
    if |a| == 1 && |a + b| >= 2 { assert (a + b)[1] == b[0]; }
  }
}
