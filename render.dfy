/**
 * The Markdown lines `generate` in src/changelog.ts writes: a two-line
 * header, then for each type label with entries a `### ` heading, the
 * categories in ascending order with their logs, and a blank line.
 */
module Render {
  import opened Strings
  import opened Grouping

  /** `sha.slice(0, 8)`. */
  function Abbrev(sha: string): (r: string)
    ensures |r| == if |sha| < 8 then |sha| else 8
    ensures r == sha[..|r|]
  {
    if |sha| <= 8 then sha else sha[..8]
  }

  /** The link one commit hash gets. */
  function ShaLink(sha: string, repoUrl: string): string {
    "[" + Abbrev(sha) + "](" + repoUrl + "/commit/" + sha + ")"
  }

  /** `commits.map(sha => ...)`. */
  function ShaLinks(shas: seq<string>, repoUrl: string): (r: seq<string>)
    ensures |r| == |shas|
  {
    seq(|shas|, i requires 0 <= i < |shas| => ShaLink(shas[i], repoUrl))
  }

  /** The line of one log, indented by `baseLine`. */
  function EntryLine(baseLine: string, log: Log, repoUrl: string): string {
    baseLine + "* " + log.title + " (" + Join(ShaLinks(log.commits, repoUrl), ',') + ")"
  }

  /** A link shows its hash's first eight characters and points at the
      whole hash. */
  lemma ShaLinkParts(sha: string, repoUrl: string)
    ensures var l, n := ShaLink(sha, repoUrl), |Abbrev(sha)|;
      && |l| == 12 + n + |repoUrl| + |sha|
      && l[1..1 + n] == sha[..n]
      && l[|l| - 1 - |sha|..|l| - 1] == sha
  {
    var l, n := ShaLink(sha, repoUrl), |Abbrev(sha)|;
    var front := "[" + Abbrev(sha) + "](" + repoUrl + "/commit/";
    assert l == front + sha + ")";
    assert l[1..1 + n] == front[1..1 + n];
    assert l[|front|..|front| + |sha|] == sha;
  }

  /** Different hashes get different links. */
  lemma ShaLinkInjective(a: string, b: string, repoUrl: string)
    requires ShaLink(a, repoUrl) == ShaLink(b, repoUrl)
    ensures a == b
  {
    ShaLinkParts(a, repoUrl);
    ShaLinkParts(b, repoUrl);
  }

  /** Where the link of the `i`-th commit of a log starts in the log's line:
      after the title and `(`, and after the earlier links and their commas. */
  function LinkStart(baseLine: string, log: Log, repoUrl: string, i: nat): nat
    requires i <= |log.commits|
  {
    |baseLine + "* " + log.title + " ("| + Offset(ShaLinks(log.commits, repoUrl), i)
  }

  /** Each hash of a log has its link in the log's line, starting at
      `LinkStart` for the hash's position, and a comma follows it unless it
      is the last hash. */
  lemma LinkListed(baseLine: string, log: Log, repoUrl: string, i: nat) returns (p: nat)
    requires i < |log.commits|
    ensures p == LinkStart(baseLine, log, repoUrl, i)
    ensures var line, link := EntryLine(baseLine, log, repoUrl), ShaLink(log.commits[i], repoUrl);
      && p + |link| < |line| && line[p..p + |link|] == link
      && (i + 1 < |log.commits| ==> line[p + |link|] == ',')
  {
    var links := ShaLinks(log.commits, repoUrl);
    assert links[i] == ShaLink(log.commits[i], repoUrl);
    p := PieceInLine(baseLine + "* " + log.title + " (", links, i);
  }

  /** The links follow the order of the commits: the link of commit `i + 1`
      starts just after the comma that ends the link of commit `i`. */
  lemma LinksInOrder(baseLine: string, log: Log, repoUrl: string, i: nat)
    requires i + 1 < |log.commits|
    ensures LinkStart(baseLine, log, repoUrl, i + 1) ==
      LinkStart(baseLine, log, repoUrl, i) + |ShaLink(log.commits[i], repoUrl)| + 1
  {
    var links := ShaLinks(log.commits, repoUrl);
    assert links[i] == ShaLink(log.commits[i], repoUrl);
    OffsetStep(links, i);
  }

  /** A piece of the joined list sits in the line that wraps the list. */
  lemma PieceInLine(front: string, links: seq<string>, i: nat) returns (p: nat)
    requires i < |links|
    ensures p == |front| + Offset(links, i)
    ensures var line := front + Join(links, ',') + ")";
      && p + |links[i]| < |line| && line[p..p + |links[i]|] == links[i]
      && (i + 1 < |links| ==> line[p + |links[i]|] == ',')
  {
    var q := JoinHas(links, ',', i);
    var text := Join(links, ',');
    p := |front| + q;
    MiddleSlice(front, text, ")", q, q + |links[i]|);
    if i + 1 < |links| {
      assert (front + text + ")")[p + |links[i]|] == text[q + |links[i]|];
    }
  }

  /** The indentation of the logs of a category: none for the default one. */
  function BaseLine(category: string): string {
    if |category| == 0 then "" else "  "
  }

  /** The line naming a category; the default category has none. */
  function CategoryHead(category: string): seq<string> {
    if |category| == 0 then [] else ["* **" + category + ":**"]
  }

  function EntryLines(baseLine: string, logs: seq<Log>, repoUrl: string): seq<string>
    decreases |logs|
  {
    if logs == [] then []
    else EntryLines(baseLine, logs[..|logs| - 1], repoUrl) + [EntryLine(baseLine, logs[|logs| - 1], repoUrl)]
  }

  function CategoryLines(category: string, logs: seq<Log>, repoUrl: string): seq<string> {
    CategoryHead(category) + EntryLines(BaseLine(category), logs, repoUrl)
  }

  /** The lines of the categories `categories` of one type, in that order. */
  function GroupLines(categories: seq<string>, group: map<string, seq<Log>>, repoUrl: string): seq<string>
    requires forall i :: 0 <= i < |categories| ==> categories[i] in group
    decreases |categories|
  {
    if categories == [] then []
    else
      var last := categories[|categories| - 1];
      GroupLines(categories[..|categories| - 1], group, repoUrl) + CategoryLines(last, group[last], repoUrl)
  }

  /** The section of one type label: heading, blank line, the categories in
      ascending order, blank line. */
  ghost function SectionLines(kind: string, group: map<string, seq<Log>>, repoUrl: string): seq<string> {
    var categories := SortSet(group.Keys);
    ["### " + kind, ""] + GroupLines(categories, group, repoUrl) + [""]
  }

  /** The `reduce` over the type labels: a section for each label that has
      entries, nothing for the others. */
  ghost function BodyLines(kinds: seq<string>, logs: Logs, repoUrl: string): seq<string>
    decreases |kinds|
  {
    if kinds == [] then []
    else
      var last := kinds[|kinds| - 1];
      BodyLines(kinds[..|kinds| - 1], logs, repoUrl) + (if last in logs then SectionLines(last, logs[last], repoUrl) else [])
  }

  /** The two header lines, given the formatted date and the compare link. */
  function HeaderLines(date: string, compareUrl: string): seq<string> {
    ["## " + date, "**[Diff Full Change](" + compareUrl + ")**"]
  }

  // ---------------------------------------------------------------------
  // The section headings of a document.

  predicate IsHeading(line: string) {
    |line| >= 4 && line[..4] == "### "
  }

  /** What follows `### ` on each heading line, in order. */
  function Headings(lines: seq<string>): seq<string>
    decreases |lines|
  {
    if lines == [] then []
    else
      var last := lines[|lines| - 1];
      Headings(lines[..|lines| - 1]) + (if IsHeading(last) then [last[4..]] else [])
  }

  /** The labels of `kinds` that have entries, in order. */
  function Present(kinds: seq<string>, logs: Logs): seq<string>
    decreases |kinds|
  {
    if kinds == [] then []
    else
      var last := kinds[|kinds| - 1];
      Present(kinds[..|kinds| - 1], logs) + (if last in logs then [last] else [])
  }

  lemma {:induction false} HeadingsAppend(a: seq<string>, b: seq<string>)
    ensures Headings(a + b) == Headings(a) + Headings(b)
    decreases |b|
  {
    if b == [] {
      assert a + b == a;
    } else {
      HeadingsAppend(a, b[..|b| - 1]);
      assert (a + b)[..|a + b| - 1] == a + b[..|b| - 1];
    }
  }

  lemma {:induction false} NoHeadingsInEntries(baseLine: string, logs: seq<Log>, repoUrl: string)
    requires baseLine == "" || baseLine == "  "
    ensures Headings(EntryLines(baseLine, logs, repoUrl)) == []
    decreases |logs|
  {
    if logs != [] {
      NoHeadingsInEntries(baseLine, logs[..|logs| - 1], repoUrl);
      EntryLineNotHeading(baseLine, logs[|logs| - 1], repoUrl);
    }
  }

  lemma EntryLineNotHeading(baseLine: string, log: Log, repoUrl: string)
    requires baseLine == "" || baseLine == "  "
    ensures !IsHeading(EntryLine(baseLine, log, repoUrl))
  {
    var line := EntryLine(baseLine, log, repoUrl);
    var rest := log.title + " (" + Join(ShaLinks(log.commits, repoUrl), ',') + ")";
    assert line == baseLine + "* " + rest;
    if baseLine == "" {
      assert line[0] == '*';
    } else {
      assert line[0] == ' ';
    }
    if |line| >= 4 {
      assert line[..4][0] == line[0];
    }
  }

  lemma {:induction false} NoHeadingsInGroup(categories: seq<string>, group: map<string, seq<Log>>, repoUrl: string)
    requires forall i :: 0 <= i < |categories| ==> categories[i] in group
    ensures Headings(GroupLines(categories, group, repoUrl)) == []
    decreases |categories|
  {
    if categories != [] {
      var last := categories[|categories| - 1];
      NoHeadingsInGroup(categories[..|categories| - 1], group, repoUrl);
      NoHeadingsInEntries(BaseLine(last), group[last], repoUrl);
      assert Headings(CategoryHead(last)) == [] by {
        if |last| != 0 {
          var line := "* **" + last + ":**";
          assert line[..4][0] == '*';
        }
      }
      HeadingsAppend(CategoryHead(last), EntryLines(BaseLine(last), group[last], repoUrl));
      HeadingsAppend(GroupLines(categories[..|categories| - 1], group, repoUrl), CategoryLines(last, group[last], repoUrl));
    }
  }

  /** Each section has exactly one heading, naming its label. */
  lemma SectionHeadings(kind: string, group: map<string, seq<Log>>, repoUrl: string)
    ensures Headings(SectionLines(kind, group, repoUrl)) == [kind]
  {
    var categories := SortSet(group.Keys);
    var g := GroupLines(categories, group, repoUrl);
    NoHeadingsInGroup(categories, group, repoUrl);
    var h := "### " + kind;
    assert h[..4] == "### " && h[4..] == kind;
    assert Headings([h]) == [kind] by {
      assert [h][..0] == [];
    }
    assert Headings([h, ""]) == [kind] by {
      assert [h, ""][..1] == [h];
    }
    HeadingsAppend([h, ""], g);
    HeadingsAppend([h, ""] + g, [""]);
    assert Headings([""]) == [] by {
      assert [""][..0] == [];
    }
  }

  /** The headings of the body are the labels with entries, in the order
      the labels are taken. */
  lemma {:induction false} BodyHeadings(kinds: seq<string>, logs: Logs, repoUrl: string)
    ensures Headings(BodyLines(kinds, logs, repoUrl)) == Present(kinds, logs)
    decreases |kinds|
  {
    if kinds != [] {
      var last := kinds[|kinds| - 1];
      var pre := kinds[..|kinds| - 1];
      BodyHeadings(pre, logs, repoUrl);
      if last in logs {
        SectionHeadings(last, logs[last], repoUrl);
        HeadingsAppend(BodyLines(pre, logs, repoUrl), SectionLines(last, logs[last], repoUrl));
      } else {
        assert BodyLines(kinds, logs, repoUrl) == BodyLines(pre, logs, repoUrl) + [];
        assert BodyLines(pre, logs, repoUrl) + [] == BodyLines(pre, logs, repoUrl);
        assert Present(kinds, logs) == Present(pre, logs) + [];
      }
    }
  }

  /** Neither header line is a section heading. */
  lemma HeaderHeadings(date: string, compareUrl: string)
    ensures Headings(HeaderLines(date, compareUrl)) == []
  {
    var h := HeaderLines(date, compareUrl);
    assert !IsHeading(h[0]) by {
      if |h[0]| >= 4 { assert h[0][..4][2] == h[0][2] == ' '; }
    }
    assert !IsHeading(h[1]) by {
      if |h[1]| >= 4 { assert h[1][..4][0] == h[1][0] == '*'; }
    }
    assert Headings(h[..1]) == [] by {
      assert h[..1][..0] == [];
    }
  }

  // ---------------------------------------------------------------------
  // Where a log's line ends up.

  /** Each log gets its line, in the order of the logs. */
  lemma {:induction false} EntryLinesIndex(baseLine: string, logs: seq<Log>, repoUrl: string, i: nat)
    requires i < |logs|
    ensures |EntryLines(baseLine, logs, repoUrl)| == |logs|
    ensures EntryLines(baseLine, logs, repoUrl)[i] == EntryLine(baseLine, logs[i], repoUrl)
    decreases |logs|
  {
    var pre := logs[..|logs| - 1];
    if i < |pre| {
      EntryLinesIndex(baseLine, pre, repoUrl, i);
      assert pre[i] == logs[i];
    } else if pre != [] {
      EntryLinesIndex(baseLine, pre, repoUrl, 0);
    }
  }

  lemma EntryLineIn(baseLine: string, logs: seq<Log>, repoUrl: string, log: Log)
    requires log in logs
    ensures EntryLine(baseLine, log, repoUrl) in EntryLines(baseLine, logs, repoUrl)
  {
    var i :| 0 <= i < |logs| && logs[i] == log;
    EntryLinesIndex(baseLine, logs, repoUrl, i);
  }

  /** A log of a listed category is written, indented as its category says. */
  lemma {:induction false} GroupLinesContain(categories: seq<string>, group: map<string, seq<Log>>, repoUrl: string, category: string, log: Log)
    requires forall i :: 0 <= i < |categories| ==> categories[i] in group
    requires category in categories && log in group[category]
    ensures EntryLine(BaseLine(category), log, repoUrl) in GroupLines(categories, group, repoUrl)
    decreases |categories|
  {
    var last := categories[|categories| - 1];
    var pre := categories[..|categories| - 1];
    if last == category {
      EntryLineIn(BaseLine(category), group[category], repoUrl, log);
    } else {
      assert category in pre by {
        var i :| 0 <= i < |categories| && categories[i] == category;
        assert i < |categories| - 1 && pre[i] == category;
      }
      GroupLinesContain(pre, group, repoUrl, category, log);
    }
  }

  /** Every line of the section of a listed label that has entries is in the body. */
  lemma {:induction false} BodyLinesContain(kinds: seq<string>, logs: Logs, repoUrl: string, kind: string, line: string)
    requires kind in kinds && kind in logs
    requires line in SectionLines(kind, logs[kind], repoUrl)
    ensures line in BodyLines(kinds, logs, repoUrl)
    decreases |kinds|
  {
    var last := kinds[|kinds| - 1];
    var pre := kinds[..|kinds| - 1];
    if last != kind {
      assert kind in pre by {
        var i :| 0 <= i < |kinds| && kinds[i] == kind;
        assert i < |kinds| - 1 && pre[i] == kind;
      }
      BodyLinesContain(pre, logs, repoUrl, kind, line);
    }
  }

  /** A log of a label and category that has entries appears in the body. */
  lemma LogListed(kinds: seq<string>, logs: Logs, repoUrl: string, kind: string, category: string, log: Log)
    requires kind in kinds && kind in logs && category in logs[kind]
    requires log in logs[kind][category]
    ensures EntryLine(BaseLine(category), log, repoUrl) in BodyLines(kinds, logs, repoUrl)
  {
    var group := logs[kind];
    var categories := SortSet(group.Keys);
    GroupLinesContain(categories, group, repoUrl, category, log);
    BodyLinesContain(kinds, logs, repoUrl, kind, EntryLine(BaseLine(category), log, repoUrl));
  }

  /** A label is present exactly when it is taken and has entries; taken
      in ascending order, the present labels are in ascending order. */
  lemma {:induction false} PresentSpec(kinds: seq<string>, logs: Logs)
    ensures forall k :: k in Present(kinds, logs) <==> k in kinds && k in logs
    ensures StrictlySorted(kinds) ==> StrictlySorted(Present(kinds, logs))
    decreases |kinds|
  {
    if kinds != [] {
      var pre := kinds[..|kinds| - 1];
      var last := kinds[|kinds| - 1];
      PresentSpec(pre, logs);
      assert kinds == pre + [last];
      if StrictlySorted(kinds) {
        assert StrictlySorted(pre) by {
          forall i, j | 0 <= i < j < |pre| ensures Less(pre[i], pre[j]) {
            assert pre[i] == kinds[i] && pre[j] == kinds[j];
          }
        }
        var p := Present(pre, logs);
        forall i | 0 <= i < |p| ensures Less(p[i], last) {
          assert p[i] in pre;
          var j :| 0 <= j < |pre| && pre[j] == p[i];
          assert kinds[j] == p[i];
        }
      }
    }
  }
}
