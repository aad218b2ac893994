/**
 * `generate` of src/changelog.ts: walks the commit pages newest first up
 * to the commit whose hash is `tagRef`, keeps the newest commit date,
 * groups the entries of the kept commits, and renders the changelog.
 *
 * `Generate` is the loop the source runs, proved equal to `Document`, which
 * says the same thing in terms of the scanned commits; the lemmas at the
 * end state what the document holds.
 */
module Changelog {
  import opened Wrappers
  import opened Strings
  import opened ChangeTypes
  import opened Entries
  import opened Grouping
  import opened Render

  // ---------------------------------------------------------------------
  // The scan.

  /** The pages of `listCommits`, one after the other. */
  function Flatten(pages: seq<seq<Commit>>): seq<Commit>
    decreases |pages|
  {
    if pages == [] then [] else Flatten(pages[..|pages| - 1]) + pages[|pages| - 1]
  }

  predicate NoTag(xs: seq<Commit>, tagRef: string) {
    forall i :: 0 <= i < |xs| ==> xs[i].sha != tagRef
  }

  /** The commits the scan looks at: all of them before the first whose
      hash is `tagRef` (`break paginator`), or all of them if none is. */
  function TakeUntil(xs: seq<Commit>, tagRef: string): (r: seq<Commit>)
    ensures |r| <= |xs| && r == xs[..|r|]
    ensures NoTag(r, tagRef)
    ensures |r| == |xs| || xs[|r|].sha == tagRef
    decreases |xs|
  {
    if xs == [] || xs[0].sha == tagRef then [] else [xs[0]] + TakeUntil(xs[1..], tagRef)
  }

  /** The scan stops at the first commit with hash `tagRef` and nowhere
      else: any prefix free of it that is followed by it, or by nothing, is
      the scanned part. */
  lemma TakeUntilStops(xs: seq<Commit>, pre: seq<Commit>, tagRef: string)
    requires |pre| <= |xs| && xs[..|pre|] == pre && NoTag(pre, tagRef)
    requires |pre| == |xs| || xs[|pre|].sha == tagRef
    ensures TakeUntil(xs, tagRef) == pre
  {
  }

  /** The commits of `pages` the scan looks at. */
  function Scanned(pages: seq<seq<Commit>>, tagRef: string): seq<Commit> {
    TakeUntil(Flatten(pages), tagRef)
  }

  /** `latestCommitDate` after the commits `xs`: none before the first
      commit, then the larger of each commit's date (or the default date)
      and the date so far (or the default date). */
  function LatestDate(xs: seq<Commit>): Option<string>
    decreases |xs|
  {
    if xs == [] then None
    else
      var last := xs[|xs| - 1];
      Some(MaxDate(last.date.GetOr(DEFAULT_DATE), LatestDate(xs[..|xs| - 1]).GetOr(DEFAULT_DATE)))
  }

  /** There is a latest date exactly once a commit was scanned, and it is
      no earlier than the default date and than any committer date. */
  lemma {:induction false} LatestDateBounds(xs: seq<Commit>)
    ensures LatestDate(xs).None? <==> xs == []
    ensures LatestDate(xs).Some? ==>
      && LessEq(DEFAULT_DATE, LatestDate(xs).value)
      && forall i :: 0 <= i < |xs| && xs[i].date.Some? ==> LessEq(xs[i].date.value, LatestDate(xs).value)
    decreases |xs|
  {
    if xs != [] {
      var pre := xs[..|xs| - 1];
      var last := xs[|xs| - 1];
      LatestDateBounds(pre);
      var a := last.date.GetOr(DEFAULT_DATE);
      var b := LatestDate(pre).GetOr(DEFAULT_DATE);
      var d := MaxDate(a, b);
      LessEqReflexive(DEFAULT_DATE);
      if last.date.None? {
        LessEqTransitive(DEFAULT_DATE, a, d);
      }
      if LatestDate(pre).Some? {
        LessEqTransitive(DEFAULT_DATE, b, d);
      }
      forall i | 0 <= i < |xs| && xs[i].date.Some? ensures LessEq(xs[i].date.value, d) {
        if i < |xs| - 1 {
          assert pre[i] == xs[i];
          LessEqTransitive(xs[i].date.value, b, d);
        }
      }
    }
  }

  /** The latest date is the default date or the date of a scanned commit. */
  lemma {:induction false} LatestDateWitness(xs: seq<Commit>)
    requires xs != []
    ensures var d := LatestDate(xs).value;
      d == DEFAULT_DATE || exists i :: 0 <= i < |xs| && xs[i].date == Some(d)
    decreases |xs|
  {
    var pre := xs[..|xs| - 1];
    var last := xs[|xs| - 1];
    var a := last.date.GetOr(DEFAULT_DATE);
    var b := LatestDate(pre).GetOr(DEFAULT_DATE);
    var d := MaxDate(a, b);
    if d != DEFAULT_DATE {
      if d == a {
        assert xs[|xs| - 1].date == Some(d);
      } else {
        LatestDateWitness(pre);
        var i :| 0 <= i < |pre| && pre[i].date == Some(d);
        assert xs[i].date == Some(d);
      }
    }
  }

  /** The kept commits among `xs`, in order, with the entries they yield. */
  function Kept(xs: seq<Commit>, repoUrl: string): seq<Item>
    decreases |xs|
  {
    if xs == [] then []
    else
      Kept(xs[..|xs| - 1], repoUrl) + KeptOne(xs[|xs| - 1], repoUrl)
  }

  /** The item one commit contributes, if it yields an entry. */
  function KeptOne(c: Commit, repoUrl: string): seq<Item> {
    match Classify(c.message, repoUrl)
    case Some(e) => [Item(c.sha, e)]
    case None => []
  }

  /** Every commit that yields an entry is kept with it. */
  lemma {:induction false} KeptComplete(xs: seq<Commit>, repoUrl: string, i: nat, e: Entry)
    requires i < |xs| && Classify(xs[i].message, repoUrl) == Some(e)
    ensures Item(xs[i].sha, e) in Kept(xs, repoUrl)
    decreases |xs|
  {
    if i < |xs| - 1 {
      var pre := xs[..|xs| - 1];
      assert pre[i] == xs[i];
      KeptComplete(pre, repoUrl, i, e);
    }
  }

  /** Every kept item comes from a scanned commit with its hash that yields
      its entry. */
  lemma {:induction false} KeptSound(xs: seq<Commit>, repoUrl: string, item: Item)
    requires item in Kept(xs, repoUrl)
    ensures exists i :: 0 <= i < |xs| && xs[i].sha == item.sha && Classify(xs[i].message, repoUrl) == Some(item.entry)
    decreases |xs|
  {
    var pre := xs[..|xs| - 1];
    if item in Kept(pre, repoUrl) {
      KeptSound(pre, repoUrl, item);
      var i :| 0 <= i < |pre| && pre[i].sha == item.sha && Classify(pre[i].message, repoUrl) == Some(item.entry);
      assert xs[i] == pre[i];
    } else {
      assert xs[|xs| - 1].sha == item.sha && Classify(xs[|xs| - 1].message, repoUrl) == Some(item.entry);
    }
  }

  // ---------------------------------------------------------------------
  // The document.

  function RepoUrl(owner: string, repo: string): string {
    "https://github.com/" + owner + "/" + repo
  }

  /** The compare link; an absent range prints as `undefined`. */
  function CompareUrl(owner: string, repo: string, compareRange: Option<string>): string {
    RepoUrl(owner, repo) + "/compare/" + (if compareRange.Some? then compareRange.value else "undefined")
  }

  /** `exclude.map(type => TYPES[type] ?? type)`. */
  function ExcludedLabels(exclude: seq<string>): (r: seq<string>)
    ensures |r| == |exclude|
  {
    seq(|exclude|, i requires 0 <= i < |exclude| => ExcludedLabel(exclude[i]))
  }

  /** A label is excluded exactly when some exclude entry names it, by its
      key or as itself. */
  lemma ExcludedLabelsSpec(exclude: seq<string>, l: string)
    ensures l in ExcludedLabels(exclude) <==> exists k :: k in exclude && ExcludedLabel(k) == l
  {
    var r := ExcludedLabels(exclude);
    if l in r {
      var i :| 0 <= i < |r| && r[i] == l;
      assert exclude[i] in exclude && ExcludedLabel(exclude[i]) == l;
    }
    if exists k :: k in exclude && ExcludedLabel(k) == l {
      var k :| k in exclude && ExcludedLabel(k) == l;
      var i :| 0 <= i < |exclude| && exclude[i] == k;
      assert r[i] == l;
    }
  }

  /** `Object.values(TYPES).filter(type => !exclude.includes(type)).sort()`. */
  ghost function IncludedKinds(exclude: seq<string>): (r: seq<string>)
    ensures StrictlySorted(r)
    ensures forall l :: l in r <==> l in LABELS && l !in ExcludedLabels(exclude)
  {
    SortSet(set l | l in LABELS && l !in ExcludedLabels(exclude))
  }

  /** Excluding a type key removes the section its commits land in, and a
      label keeps its section unless some exclude entry names it. */
  lemma ExcludedKeyDropsSection(exclude: seq<string>, key: string, l: string)
    ensures key in exclude && key in TYPES ==> LabelOf(key) !in IncludedKinds(exclude)
    ensures l in LABELS ==>
      (l in IncludedKinds(exclude) <==> forall k :: k in exclude ==> ExcludedLabel(k) != l)
  {
    ExcludedLabelsSpec(exclude, l);
    if key in exclude && key in TYPES {
      ExcludedLabelSpec(key);
      ExcludedLabelsSpec(exclude, LabelOf(key));
    }
  }

  /** The lines of the changelog `generate` returns; `formatDate` stands for
      the date formatting of the header (see README). */
  ghost function DocumentLines(pages: seq<seq<Commit>>, exclude: seq<string>, owner: string, repo: string,
                               tagRef: string, compareRange: Option<string>,
                               formatDate: Option<string> -> string): seq<string>
  {
    var repoUrl := RepoUrl(owner, repo);
    var scanned := Scanned(pages, tagRef);
    HeaderLines(formatDate(LatestDate(scanned)), CompareUrl(owner, repo, compareRange))
      + BodyLines(IncludedKinds(exclude), Collect(Kept(scanned, repoUrl)), repoUrl)
  }

  ghost function Document(pages: seq<seq<Commit>>, exclude: seq<string>, owner: string, repo: string,
                          tagRef: string, compareRange: Option<string>,
                          formatDate: Option<string> -> string): string
  {
    Join(DocumentLines(pages, exclude, owner, repo, tagRef, compareRange, formatDate), '\n')
  }

  // ---------------------------------------------------------------------
  // The loop.

  lemma FlattenStep(pages: seq<seq<Commit>>, p: nat)
    requires p < |pages|
    ensures Flatten(pages[..p + 1]) == Flatten(pages[..p]) + pages[p]
  {
    assert pages[..p + 1][..p] == pages[..p];
  }

  lemma {:induction false} FlattenAppend(a: seq<seq<Commit>>, b: seq<seq<Commit>>)
    ensures Flatten(a + b) == Flatten(a) + Flatten(b)
    decreases |b|
  {
    if b == [] {
      assert a + b == a;
    } else {
      var b' := b[..|b| - 1];
      FlattenAppend(a, b');
      assert (a + b)[..|a + b| - 1] == a + b';
      assert (a + b)[|a + b| - 1] == b[|b| - 1];
      AppendAssociative(Flatten(a), Flatten(b'), b[|b| - 1]);
    }
  }

  /** Meeting `tagRef` at position `k` of page `p` ends the scan there. */
  lemma ScanStops(pages: seq<seq<Commit>>, p: nat, k: nat, tagRef: string)
    requires p < |pages| && k < |pages[p]| && pages[p][k].sha == tagRef
    requires NoTag(Flatten(pages[..p]) + pages[p][..k], tagRef)
    ensures Scanned(pages, tagRef) == Flatten(pages[..p]) + pages[p][..k]
  {
    var pre := Flatten(pages[..p]) + pages[p][..k];
    FlattenAppend(pages[..p + 1], pages[p + 1..]);
    assert pages[..p + 1] + pages[p + 1..] == pages;
    FlattenStep(pages, p);
    var xs := Flatten(pages);
    assert xs == Flatten(pages[..p]) + pages[p] + Flatten(pages[p + 1..]);
    assert xs[..|pre|] == pre;
    assert xs[|pre|] == pages[p][k];
    TakeUntilStops(xs, pre, tagRef);
  }

  lemma CollectStep(items: seq<Item>, item: Item)
    ensures Collect(items + [item]) == AddEntry(Collect(items), item)
  {
    assert (items + [item])[..|items|] == items;
  }

  /** The update `generate` makes once a commit is kept: find the log with
      the entry's title in its type and category and add the hash to it, or
      append a new log. */
  method Record(commits: Logs, sha: string, e: Entry) returns (r: Logs)
    ensures r == AddEntry(commits, Item(sha, e))
  {
    var typeGroup := if e.typeLabel in commits then commits[e.typeLabel] else map[];
    var categoryGroup := if e.category in typeGroup then typeGroup[e.category] else [];
    var existingIndex := FindIndex(categoryGroup, e.title);
    if existingIndex == -1 {
      categoryGroup := categoryGroup + [Log(e.title, [sha])];
    } else {
      var log := categoryGroup[existingIndex];
      categoryGroup := categoryGroup[existingIndex := Log(log.title, log.commits + [sha])];
    }
    r := commits[e.typeLabel := typeGroup[e.category := categoryGroup]];
  }

  /** The lines of one category pushed onto `changelog`: its name unless it
      is the default category, then one line per log. */
  method PushCategory(changelog: seq<string>, category: string, categoryGroup: seq<Log>, repoUrl: string)
    returns (r: seq<string>)
    ensures r == changelog + CategoryLines(category, categoryGroup, repoUrl)
  {
    var defaultCategory := |category| == 0;
    r := changelog;
    if !defaultCategory {
      r := r + ["* **" + category + ":**"];
    }
    assert r == changelog + CategoryHead(category);
    var baseLine := if defaultCategory then "" else "  ";
    r := PushLogs(r, baseLine, categoryGroup, repoUrl);
  }

  /** The `for (const { title, commits } of categoryGroup)` loop. */
  method PushLogs(changelog: seq<string>, baseLine: string, categoryGroup: seq<Log>, repoUrl: string)
    returns (r: seq<string>)
    ensures r == changelog + EntryLines(baseLine, categoryGroup, repoUrl)
  {
    r := changelog;
    for i := 0 to |categoryGroup|
      invariant r == changelog + EntryLines(baseLine, categoryGroup[..i], repoUrl)
    {
      var log := categoryGroup[i];
      EntryLinesStep(baseLine, categoryGroup, i, repoUrl);
      r := r + [EntryLine(baseLine, log, repoUrl)];
    }
    assert categoryGroup[..|categoryGroup|] == categoryGroup;
  }

  lemma EntryLinesStep(baseLine: string, logs: seq<Log>, i: nat, repoUrl: string)
    requires i < |logs|
    ensures EntryLines(baseLine, logs[..i + 1], repoUrl) == EntryLines(baseLine, logs[..i], repoUrl) + [EntryLine(baseLine, logs[i], repoUrl)]
  {
    assert logs[..i + 1][..i] == logs[..i];
  }

  /** The `for (const category of categories)` loop. */
  method PushGroups(changelog: seq<string>, categories: seq<string>, typeGroup: map<string, seq<Log>>, repoUrl: string)
    returns (r: seq<string>)
    requires forall i :: 0 <= i < |categories| ==> categories[i] in typeGroup
    ensures r == changelog + GroupLines(categories, typeGroup, repoUrl)
  {
    r := changelog;
    for c := 0 to |categories|
      invariant r == changelog + GroupLines(categories[..c], typeGroup, repoUrl)
    {
      var category := categories[c];
      ghost var done := GroupLines(categories[..c], typeGroup, repoUrl);
      ghost var lines := CategoryLines(category, typeGroup[category], repoUrl);
      GroupLinesStep(categories, c, typeGroup, repoUrl);
      r := PushCategory(r, category, typeGroup[category], repoUrl);
      AppendAssociative(changelog, done, lines);
    }
    assert categories[..|categories|] == categories;
  }

  lemma GroupLinesStep(categories: seq<string>, c: nat, typeGroup: map<string, seq<Log>>, repoUrl: string)
    requires c < |categories|
    requires forall i :: 0 <= i < |categories| ==> categories[i] in typeGroup
    ensures GroupLines(categories[..c + 1], typeGroup, repoUrl) ==
      GroupLines(categories[..c], typeGroup, repoUrl) + CategoryLines(categories[c], typeGroup[categories[c]], repoUrl)
  {
    assert categories[..c + 1][..c] == categories[..c];
  }

  /** One step of the `reduce`: the lines of one type label with entries
      pushed onto `changelog`. */
  method PushSection(changelog: seq<string>, kind: string, typeGroup: map<string, seq<Log>>, repoUrl: string)
    returns (r: seq<string>)
    ensures r == changelog + SectionLines(kind, typeGroup, repoUrl)
  {
    r := changelog + ["### " + kind, ""];
    var categories := SortKeys(typeGroup.Keys);
    r := PushGroups(r, categories, typeGroup, repoUrl);
    r := r + [""];
  }

  /** The `reduce` over the sorted type labels. */
  method RenderBody(types: seq<string>, commits: Logs, repoUrl: string) returns (body: seq<string>)
    ensures body == BodyLines(types, commits, repoUrl)
  {
    body := [];
    for t := 0 to |types|
      invariant body == BodyLines(types[..t], commits, repoUrl)
    {
      var kind := types[t];
      assert types[..t + 1][..t] == types[..t];
      if kind in commits {
        body := PushSection(body, kind, commits[kind], repoUrl);
      } else {
        assert BodyLines(types[..t + 1], commits, repoUrl) == BodyLines(types[..t], commits, repoUrl) + [];
      }
    }
    assert types[..|types|] == types;
  }

  lemma KeptKeeps(seen: seq<Commit>, commit: Commit, repoUrl: string, e: Entry)
    requires Classify(commit.message, repoUrl) == Some(e)
    ensures Kept(seen + [commit], repoUrl) == Kept(seen, repoUrl) + [Item(commit.sha, e)]
  {
    KeptStep(seen, commit, repoUrl);
  }

  lemma KeptSkips(seen: seq<Commit>, commit: Commit, repoUrl: string)
    requires Classify(commit.message, repoUrl).None?
    ensures Kept(seen + [commit], repoUrl) == Kept(seen, repoUrl)
  {
    KeptStep(seen, commit, repoUrl);
  }

  lemma KeptStep(seen: seq<Commit>, commit: Commit, repoUrl: string)
    ensures Kept(seen + [commit], repoUrl) == Kept(seen, repoUrl) + KeptOne(commit, repoUrl)
  {
    var xs := seen + [commit];
    assert xs[|xs| - 1] == commit;
    assert xs[..|xs| - 1] == seen;
  }

  lemma DateStep(seen: seq<Commit>, commit: Commit)
    ensures LatestDate(seen + [commit]) ==
      Some(MaxDate(commit.date.GetOr(DEFAULT_DATE), LatestDate(seen).GetOr(DEFAULT_DATE)))
  {
    assert (seen + [commit])[..|seen|] == seen;
  }

  method Visit(commits: Logs, latestCommitDate: Option<string>, commit: Commit, repoUrl: string, ghost seen: seq<Commit>)
    returns (commits': Logs, latestCommitDate': Option<string>)
    requires commits == Collect(Kept(seen, repoUrl)) && latestCommitDate == LatestDate(seen)
    ensures commits' == Collect(Kept(seen + [commit], repoUrl))
    ensures latestCommitDate' == LatestDate(seen + [commit])
  {
    DateStep(seen, commit);
    latestCommitDate' := Some(MaxDate(commit.date.GetOr(DEFAULT_DATE), latestCommitDate.GetOr(DEFAULT_DATE)));
    var entry := Classify(commit.message, repoUrl);
    if entry.Some? {
      KeptKeeps(seen, commit, repoUrl, entry.value);
      CollectStep(Kept(seen, repoUrl), Item(commit.sha, entry.value));
      commits' := Record(commits, commit.sha, entry.value);
    } else {
      KeptSkips(seen, commit, repoUrl);
      commits' := commits;
    }
  }

  /** The `paginator` loop: the grouping and the latest date of the commits
      before the first one whose hash is `tagRef`. */
  method Scan(pages: seq<seq<Commit>>, tagRef: string, repoUrl: string)
    returns (commits: Logs, latestCommitDate: Option<string>)
    ensures commits == Collect(Kept(Scanned(pages, tagRef), repoUrl))
    ensures latestCommitDate == LatestDate(Scanned(pages, tagRef))
  {
    commits := map[];
    latestCommitDate := None;
    ghost var seen: seq<Commit> := [];

    var p := 0;
    label paginator:
    while p < |pages|
      invariant 0 <= p <= |pages|
      invariant seen == Flatten(pages[..p]) && NoTag(seen, tagRef)
      invariant commits == Collect(Kept(seen, repoUrl)) && latestCommitDate == LatestDate(seen)
    {
      var data := pages[p];
      var k := 0;
      while k < |data|
        invariant 0 <= k <= |data|
        invariant seen == Flatten(pages[..p]) + data[..k] && NoTag(seen, tagRef)
        invariant commits == Collect(Kept(seen, repoUrl)) && latestCommitDate == LatestDate(seen)
      {
        var commit := data[k];
        if commit.sha == tagRef {
          ScanStops(pages, p, k, tagRef);
          break paginator;
        }
        commits, latestCommitDate := Visit(commits, latestCommitDate, commit, repoUrl, seen);
        SeenStep(pages, p, k, seen, tagRef);
        seen := seen + [commit];
        k := k + 1;
      }
      PageDone(pages, p);
      p := p + 1;
    }
    if p == |pages| {
      ScanEnds(pages, seen, tagRef);
    }
  }

  lemma SeenStep(pages: seq<seq<Commit>>, p: nat, k: nat, seen: seq<Commit>, tagRef: string)
    requires p < |pages| && k < |pages[p]| && pages[p][k].sha != tagRef
    requires seen == Flatten(pages[..p]) + pages[p][..k] && NoTag(seen, tagRef)
    ensures seen + [pages[p][k]] == Flatten(pages[..p]) + pages[p][..k + 1]
    ensures NoTag(seen + [pages[p][k]], tagRef)
  {
    assert pages[p][..k + 1] == pages[p][..k] + [pages[p][k]];
  }

  lemma PageDone(pages: seq<seq<Commit>>, p: nat)
    requires p < |pages|
    ensures Flatten(pages[..p]) + pages[p][..|pages[p]|] == Flatten(pages[..p + 1])
  {
    FlattenStep(pages, p);
    assert pages[p][..|pages[p]|] == pages[p];
  }

  lemma ScanEnds(pages: seq<seq<Commit>>, seen: seq<Commit>, tagRef: string)
    requires seen == Flatten(pages[..|pages|]) && NoTag(seen, tagRef)
    ensures Scanned(pages, tagRef) == seen
  {
    assert pages[..|pages|] == pages;
    TakeUntilStops(Flatten(pages), seen, tagRef);
  }

  /** `generate`: `pages` are the pages `listCommits` returns for
      `branchRef`, newest commit first. */
  method Generate(pages: seq<seq<Commit>>, exclude: seq<string>, owner: string, repo: string,
                  branchRef: string, tagRef: string, compareRange: Option<string>,
                  formatDate: Option<string> -> string) returns (doc: string)
    ensures doc == Document(pages, exclude, owner, repo, tagRef, compareRange, formatDate)
  {
    var excluded := ExcludedLabels(exclude);
    var compareUrl := CompareUrl(owner, repo, compareRange);
    var repoUrl := RepoUrl(owner, repo);
    var commits, latestCommitDate := Scan(pages, tagRef, repoUrl);
    var types := SortKeys(set l | l in LABELS && l !in excluded);
    var body := RenderBody(types, commits, repoUrl);
    var header := ["## " + formatDate(latestCommitDate), "**[Diff Full Change](" + compareUrl + ")**"];
    doc := Join(header + body, '\n');
  }

  // ---------------------------------------------------------------------
  // What the document holds.

  /** Commit `c` yields an entry of type label `kind`. */
  predicate YieldsKind(c: Commit, repoUrl: string, kind: string) {
    var r := Classify(c.message, repoUrl);
    r.Some? && r.value.typeLabel == kind
  }

  /** Some kept item has type label `kind` exactly when some commit yields it. */
  lemma KeptKinds(xs: seq<Commit>, repoUrl: string, kind: string)
    ensures (exists i :: 0 <= i < |Kept(xs, repoUrl)| && Kept(xs, repoUrl)[i].entry.typeLabel == kind) <==>
      (exists j :: 0 <= j < |xs| && YieldsKind(xs[j], repoUrl, kind))
  {
    var items := Kept(xs, repoUrl);
    if exists i :: 0 <= i < |items| && items[i].entry.typeLabel == kind {
      var i :| 0 <= i < |items| && items[i].entry.typeLabel == kind;
      KeptKindSound(xs, repoUrl, items[i]);
    }
    if exists j :: 0 <= j < |xs| && YieldsKind(xs[j], repoUrl, kind) {
      var j :| 0 <= j < |xs| && YieldsKind(xs[j], repoUrl, kind);
      KeptKindComplete(xs, repoUrl, j, kind);
    }
  }

  lemma KeptKindSound(xs: seq<Commit>, repoUrl: string, item: Item)
    requires item in Kept(xs, repoUrl)
    ensures exists j :: 0 <= j < |xs| && YieldsKind(xs[j], repoUrl, item.entry.typeLabel)
  {
    KeptSound(xs, repoUrl, item);
    var j :| 0 <= j < |xs| && xs[j].sha == item.sha && Classify(xs[j].message, repoUrl) == Some(item.entry);
    assert YieldsKind(xs[j], repoUrl, item.entry.typeLabel);
  }

  lemma KeptKindComplete(xs: seq<Commit>, repoUrl: string, j: nat, kind: string)
    requires j < |xs| && YieldsKind(xs[j], repoUrl, kind)
    ensures exists i :: 0 <= i < |Kept(xs, repoUrl)| && Kept(xs, repoUrl)[i].entry.typeLabel == kind
  {
    var e := Classify(xs[j].message, repoUrl).value;
    KeptComplete(xs, repoUrl, j, e);
    var items := Kept(xs, repoUrl);
    var i :| 0 <= i < |items| && items[i] == Item(xs[j].sha, e);
  }

  /** The section headings of the document are the included labels that
      have entries, in the order the body takes them. */
  lemma DocumentHeadings(pages: seq<seq<Commit>>, exclude: seq<string>, owner: string, repo: string,
                         tagRef: string, compareRange: Option<string>,
                         formatDate: Option<string> -> string)
    ensures Headings(DocumentLines(pages, exclude, owner, repo, tagRef, compareRange, formatDate)) ==
      Present(IncludedKinds(exclude), Collect(Kept(Scanned(pages, tagRef), RepoUrl(owner, repo))))
  {
    var repoUrl := RepoUrl(owner, repo);
    var scanned := Scanned(pages, tagRef);
    var header := HeaderLines(formatDate(LatestDate(scanned)), CompareUrl(owner, repo, compareRange));
    var logs := Collect(Kept(scanned, repoUrl));
    HeaderHeadings(formatDate(LatestDate(scanned)), CompareUrl(owner, repo, compareRange));
    BodyHeadings(IncludedKinds(exclude), logs, repoUrl);
    HeadingsAppend(header, BodyLines(IncludedKinds(exclude), logs, repoUrl));
  }

  /** The section headings are in ascending order, and a label has a
      section exactly when it is not excluded and some scanned commit
      yields an entry of that label. */
  lemma HeadingSpec(pages: seq<seq<Commit>>, exclude: seq<string>, owner: string, repo: string,
                    tagRef: string, compareRange: Option<string>,
                    formatDate: Option<string> -> string, kind: string)
    ensures var h := Headings(DocumentLines(pages, exclude, owner, repo, tagRef, compareRange, formatDate));
      && StrictlySorted(h)
      && (kind in h <==>
           kind in LABELS && kind !in ExcludedLabels(exclude) &&
           exists j :: 0 <= j < |Scanned(pages, tagRef)| && YieldsKind(Scanned(pages, tagRef)[j], RepoUrl(owner, repo), kind))
  {
    var repoUrl := RepoUrl(owner, repo);
    var scanned := Scanned(pages, tagRef);
    var items := Kept(scanned, repoUrl);
    DocumentHeadings(pages, exclude, owner, repo, tagRef, compareRange, formatDate);
    PresentSpec(IncludedKinds(exclude), Collect(items));
    CollectKeys(items, kind, "");
    KeptKinds(scanned, repoUrl, kind);
  }

  /** Every scanned commit whose entry has an included label is listed: the
      document has the line of the log of its title, in its type and
      category, and that log carries the commit's hash. */
  lemma CommitListed(pages: seq<seq<Commit>>, exclude: seq<string>, owner: string, repo: string,
                     tagRef: string, compareRange: Option<string>,
                     formatDate: Option<string> -> string, i: nat, e: Entry)
    requires i < |Scanned(pages, tagRef)|
    requires Classify(Scanned(pages, tagRef)[i].message, RepoUrl(owner, repo)) == Some(e)
    requires e.typeLabel !in ExcludedLabels(exclude)
    ensures var shas := ShasFor(Kept(Scanned(pages, tagRef), RepoUrl(owner, repo)), e.typeLabel, e.category, e.title);
      && Scanned(pages, tagRef)[i].sha in shas
      && EntryLine(BaseLine(e.category), Log(e.title, shas), RepoUrl(owner, repo)) in
           DocumentLines(pages, exclude, owner, repo, tagRef, compareRange, formatDate)
  {
    var repoUrl := RepoUrl(owner, repo);
    var scanned := Scanned(pages, tagRef);
    var items := Kept(scanned, repoUrl);
    var item := Item(scanned[i].sha, e);
    KeptComplete(scanned, repoUrl, i, e);
    var k :| 0 <= k < |items| && items[k] == item;
    LogOfItem(items, k);
    var shas := ShasFor(items, e.typeLabel, e.category, e.title);
    var logs := Collect(items);
    assert e.typeLabel in IncludedKinds(exclude);
    LogListed(IncludedKinds(exclude), logs, repoUrl, e.typeLabel, e.category, Log(e.title, shas));
    var header := HeaderLines(formatDate(LatestDate(scanned)), CompareUrl(owner, repo, compareRange));
    var body := BodyLines(IncludedKinds(exclude), logs, repoUrl);
    assert EntryLine(BaseLine(e.category), Log(e.title, shas), repoUrl) in header + body;
  }
}
