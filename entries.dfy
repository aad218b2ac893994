/**
 * What `generate` in src/changelog.ts makes of one commit: the newest
 * commit date seen so far, and the changelog entry (type label, category
 * and title) the first line of the commit message yields, if any.
 */
module Entries {
  import opened Wrappers
  import opened Strings
  import opened ChangeTypes
  import opened CommitGrammar
  import opened PullLinks

  /** One element of a `listCommits` page: the commit hash, the committer
      date when there is one, and the full commit message. */
  datatype Commit = Commit(sha: string, date: Option<string>, message: string)

  /** A commit that survives the filters: its type label, its category
      (empty for none) and its rewritten title. */
  datatype Entry = Entry(typeLabel: string, category: string, title: string)

  /** The date standing in for a missing committer date or for no date yet. */
  const DEFAULT_DATE := "1999-09-09"

  /** `maxDate`: the larger of two date strings in string order. */
  function MaxDate(a: string, b: string): (r: string)
    ensures r == a || r == b
    ensures LessEq(a, r) && LessEq(b, r)
  {
    LessEqTotal(a, b);
    LessEqReflexive(a);
    LessEqReflexive(b);
    if Less(b, a) then a else b
  }

  /** `message.split("\n")[0]`: the longest prefix without a line feed. */
  function FirstLine(message: string): (r: string)
    ensures |r| <= |message| && r == message[..|r|]
    ensures '\n' !in r
    ensures |r| == |message| || message[|r|] == '\n'
  {
    FirstPiece(message);
    Split(message, '\n')[0]
  }

  lemma {:induction false} FirstPiece(s: string)
    ensures var r := Split(s, '\n')[0];
      |r| <= |s| && r == s[..|r|] && (|r| == |s| || s[|r|] == '\n')
  {
    if s != [] {
      FirstPiece(s[1..]);
    }
  }

  /** The flag is `ignore` once trimmed. */
  predicate Ignored(flag: Option<string>) {
    flag.Some? && Trim(flag.value) == "ignore"
  }

  /** The entry a match gives: the trimmed type looked up in the type
      table, the trimmed category (empty when there is none), and the
      trimmed title with its pull-request references turned into links. */
  function EntryOf(c: Captures, repoUrl: string): (e: Entry)
    ensures e.typeLabel in LABELS
    ensures e.category == [] || (!IsWhitespace(e.category[0]) && !IsWhitespace(e.category[|e.category| - 1]))
    ensures NoDoubleSpace(e.category)
    ensures !HasRef(Trim(c.title)) ==> e.title == Trim(c.title)
  {
    LabelOfSpec(Trim(c.kind));
    RewriteUnchanged(Trim(c.title), repoUrl);
    var category := if c.category.Some? && c.category.value != [] then Trim(c.category.value) else "";
    Entry(LabelOf(Trim(c.kind)), category, Rewrite(Trim(c.title), repoUrl))
  }

  /** The match the regular expression returns on `line`. */
  ghost predicate Selected(line: string, c: Captures) {
    IsMatch(line, c) && forall d :: IsMatch(line, d) ==> Preferred(c, d)
  }

  /** One pass of the commit loop after the date update: the entry the
      commit contributes, or none when its subject does not match, its
      title capture is empty, or its flag is `ignore`. */
  function Classify(message: string, repoUrl: string): (r: Option<Entry>)
    ensures r.Some? ==> r.value.typeLabel in LABELS
  {
    match Exec(FirstLine(message))
    case None => None
    case Some(c) => if c.title == [] || Ignored(c.flag) then None else Some(EntryOf(c, repoUrl))
  }

  /** A commit yields entry `e` exactly when the first line of its message
      has a selected match with a non-empty title and no `ignore` flag, and
      `e` is built from that match. */
  lemma ClassifySpec(message: string, repoUrl: string, e: Entry)
    ensures Classify(message, repoUrl) == Some(e) <==>
      exists c :: Selected(FirstLine(message), c) && c.title != [] && !Ignored(c.flag) && e == EntryOf(c, repoUrl)
  {
    var line := FirstLine(message);
    if Classify(message, repoUrl) == Some(e) {
      var c := Exec(line).value;
      ExecSpec(line, c);
      assert Selected(line, c);
    }
    if exists c :: Selected(line, c) && c.title != [] && !Ignored(c.flag) && e == EntryOf(c, repoUrl) {
      var c :| Selected(line, c) && c.title != [] && !Ignored(c.flag) && e == EntryOf(c, repoUrl);
      ExecSpec(line, c);
    }
  }

  /** A commit is skipped exactly when nothing matches the first line of its
      message, or the selected match has an empty title or an `ignore` flag. */
  lemma ClassifySkipped(message: string, repoUrl: string)
    ensures Classify(message, repoUrl).None? <==>
      (forall d :: !IsMatch(FirstLine(message), d)) ||
      exists c :: Selected(FirstLine(message), c) && (c.title == [] || Ignored(c.flag))
  {
    var line := FirstLine(message);
    ExecNone(line);
    if Exec(line).Some? {
      var c := Exec(line).value;
      ExecSpec(line, c);
      forall c' | Selected(line, c') ensures c' == c {
        ExecSpec(line, c');
      }
    }
  }

  /** An `ignore` flag drops the commit whatever its type, category and title. */
  lemma IgnoredSkipped(message: string, repoUrl: string, c: Captures)
    requires Selected(FirstLine(message), c) && Ignored(c.flag)
    ensures Classify(message, repoUrl).None?
  {
    ExecSpec(FirstLine(message), c);
  }
}
