/**
 * The `Logs` structure of src/changelog.ts: entries grouped by type label,
 * then by category, then by title, each title keeping the hashes of its
 * commits in the order they were met. The grouping is built one entry at
 * a time (`AddEntry`); `Grouped` describes the outcome directly, and
 * `CollectBuckets` shows the two agree.
 */
module Grouping {
  import opened Entries

  /** A changelog line in the making: a title and the commits that gave it. */
  datatype Log = Log(title: string, commits: seq<string>)

  /** Type label to category to the logs of that category. */
  type Logs = map<string, map<string, seq<Log>>>

  /** A kept commit: its hash and the entry it yields. */
  datatype Item = Item(sha: string, entry: Entry)

  predicate Distinct(xs: seq<string>) {
    forall i, j :: 0 <= i < j < |xs| ==> xs[i] != xs[j]
  }

  /** `bucket.findIndex(log => log.title === title)`. */
  function TitleIndex(bucket: seq<Log>, title: string): (r: int)
    ensures -1 <= r < |bucket|
    ensures r >= 0 ==> bucket[r].title == title
    ensures forall k :: 0 <= k < |bucket| && (r == -1 || k < r) ==> bucket[k].title != title
    decreases |bucket|
  {
    if bucket == [] then -1
    else if bucket[0].title == title then 0
    else
      var k := TitleIndex(bucket[1..], title);
      if k == -1 then -1 else k + 1
  }

  /** The same search as a loop, as `Array.prototype.findIndex` runs it. */
  method FindIndex(bucket: seq<Log>, title: string) returns (r: int)
    ensures r == TitleIndex(bucket, title)
  {
    var i := 0;
    while i < |bucket|
      invariant 0 <= i <= |bucket|
      invariant forall k :: 0 <= k < i ==> bucket[k].title != title
    {
      if bucket[i].title == title {
        return i;
      }
      i := i + 1;
    }
    return -1;
  }

  /** `logs[kind]?.[category] ?? []`. */
  function Bucket(logs: Logs, kind: string, category: string): seq<Log> {
    if kind in logs && category in logs[kind] then logs[kind][category] else []
  }

  /** Adds `sha` under `title`: a new log at the end when no log has that
      title, otherwise one more commit on the log that has it. */
  function AddToBucket(bucket: seq<Log>, title: string, sha: string): seq<Log> {
    var i := TitleIndex(bucket, title);
    if i == -1 then bucket + [Log(title, [sha])]
    else bucket[i := Log(bucket[i].title, bucket[i].commits + [sha])]
  }

  /** One pass of the loop body once a commit is kept. */
  function AddEntry(logs: Logs, item: Item): Logs {
    var e := item.entry;
    var group := if e.typeLabel in logs then logs[e.typeLabel] else map[];
    var bucket := if e.category in group then group[e.category] else [];
    logs[e.typeLabel := group[e.category := AddToBucket(bucket, e.title, item.sha)]]
  }

  /** The grouping after the kept commits `items`, in the order met. */
  function Collect(items: seq<Item>): Logs
    decreases |items|
  {
    if items == [] then map[]
    else AddEntry(Collect(items[..|items| - 1]), items[|items| - 1])
  }

  // ---------------------------------------------------------------------
  // The grouping described directly.

  predicate Matches(item: Item, kind: string, category: string) {
    item.entry.typeLabel == kind && item.entry.category == category
  }

  /** The titles of the items of one type and category, in order. */
  function Titles(items: seq<Item>, kind: string, category: string): seq<string>
    decreases |items|
  {
    if items == [] then []
    else
      var last := items[|items| - 1];
      Titles(items[..|items| - 1], kind, category) + (if Matches(last, kind, category) then [last.entry.title] else [])
  }

  /** The hashes of the items of one type, category and title, in order. */
  function ShasFor(items: seq<Item>, kind: string, category: string, title: string): seq<string>
    decreases |items|
  {
    if items == [] then []
    else
      var last := items[|items| - 1];
      ShasFor(items[..|items| - 1], kind, category, title) +
        (if Matches(last, kind, category) && last.entry.title == title then [last.sha] else [])
  }

  /** The distinct elements of `xs`, each where it first occurs. */
  function Dedup(xs: seq<string>): (r: seq<string>)
    ensures Distinct(r)
    ensures forall x :: x in r <==> x in xs
    decreases |xs|
  {
    if xs == [] then []
    else
      var d := Dedup(xs[..|xs| - 1]);
      var x := xs[|xs| - 1];
      assert forall y :: y in xs <==> y in xs[..|xs| - 1] || y == x by {
        assert xs == xs[..|xs| - 1] + [x];
      }
      if x in d then d else d + [x]
  }

  /** The logs of one type and category: one per distinct title, in the
      order titles first occur, each with all the hashes of that title. */
  function Grouped(items: seq<Item>, kind: string, category: string): (r: seq<Log>)
    ensures |r| == |Dedup(Titles(items, kind, category))|
  {
    var ts := Dedup(Titles(items, kind, category));
    seq(|ts|, i requires 0 <= i < |ts| => Log(ts[i], ShasFor(items, kind, category, ts[i])))
  }

  lemma {:induction false} ShasForEmpty(items: seq<Item>, kind: string, category: string, title: string)
    ensures ShasFor(items, kind, category, title) == [] <==> title !in Titles(items, kind, category)
    decreases |items|
  {
    if items != [] {
      ShasForEmpty(items[..|items| - 1], kind, category, title);
    }
  }

  lemma BucketAdd(logs: Logs, item: Item, kind: string, category: string)
    ensures Bucket(AddEntry(logs, item), kind, category) ==
      if Matches(item, kind, category) then AddToBucket(Bucket(logs, kind, category), item.entry.title, item.sha)
      else Bucket(logs, kind, category)
  {
  }

  /** Building the grouping commit by commit gives the logs `Grouped`
      describes, for every type and category. */
  lemma {:induction false} CollectBuckets(items: seq<Item>, kind: string, category: string)
    ensures Bucket(Collect(items), kind, category) == Grouped(items, kind, category)
    decreases |items|
  {
    if items != [] {
      var pre := items[..|items| - 1];
      var x := items[|items| - 1];
      CollectBuckets(pre, kind, category);
      BucketAdd(Collect(pre), x, kind, category);
      if Matches(x, kind, category) {
        GroupedStep(pre, x, kind, category);
        assert pre + [x] == items;
      } else {
        GroupedSame(pre, x, kind, category);
        assert pre + [x] == items;
      }
    }
  }

  lemma GroupedSame(pre: seq<Item>, x: Item, kind: string, category: string)
    requires !Matches(x, kind, category)
    ensures Grouped(pre + [x], kind, category) == Grouped(pre, kind, category)
  {
    var items := pre + [x];
    assert items[..|items| - 1] == pre;
    assert Titles(items, kind, category) == Titles(pre, kind, category);
    var a, b := Grouped(items, kind, category), Grouped(pre, kind, category);
    forall i | 0 <= i < |a| ensures a[i] == b[i] {
      assert ShasFor(items, kind, category, a[i].title) == ShasFor(pre, kind, category, a[i].title);
    }
  }

  lemma GroupedStep(pre: seq<Item>, x: Item, kind: string, category: string)
    requires Matches(x, kind, category)
    ensures Grouped(pre + [x], kind, category) ==
      AddToBucket(Grouped(pre, kind, category), x.entry.title, x.sha)
  {
    var items := pre + [x];
    var t := x.entry.title;
    assert items[..|items| - 1] == pre;
    var old_ts := Titles(pre, kind, category);
    assert Titles(items, kind, category) == old_ts + [t];
    assert (old_ts + [t])[..|old_ts + [t]| - 1] == old_ts;
    var ts := Dedup(old_ts);
    var b := Grouped(pre, kind, category);
    var a := Grouped(items, kind, category);
    forall u ensures ShasFor(items, kind, category, u) ==
      ShasFor(pre, kind, category, u) + (if u == t then [x.sha] else [])
    {
    }
    var k := TitleIndex(b, t);
    if k == -1 {
      assert forall j :: 0 <= j < |ts| ==> b[j].title == ts[j];
      assert t !in ts;
      ShasForEmpty(pre, kind, category, t);
      assert Dedup(old_ts + [t]) == ts + [t];
      var r := b + [Log(t, [x.sha])];
      forall i | 0 <= i < |a| ensures a[i] == r[i] {
        if i < |ts| {
          assert ts[i] != t;
        }
      }
    } else {
      assert ts[k] == t;
      assert Dedup(old_ts + [t]) == ts;
      var r := b[k := Log(b[k].title, b[k].commits + [x.sha])];
      forall i | 0 <= i < |a| ensures a[i] == r[i] {
        if i != k {
          assert ts[i] != t;
        }
      }
    }
  }

  /** A type kind is a key of the grouping exactly when some kept commit
      has it, and a category is a key under it exactly when some kept
      commit has both. */
  lemma {:induction false} CollectKeys(items: seq<Item>, kind: string, category: string)
    ensures kind in Collect(items) <==> exists i :: 0 <= i < |items| && items[i].entry.typeLabel == kind
    ensures kind in Collect(items) ==>
      (category in Collect(items)[kind] <==> exists i :: 0 <= i < |items| && Matches(items[i], kind, category))
    decreases |items|
  {
    if items != [] {
      var pre := items[..|items| - 1];
      var x := items[|items| - 1];
      CollectKeys(pre, kind, category);
      AddEntryKeys(Collect(pre), x, kind, category);
      LastSplit(items, kind, category);
    }
  }

  /** The keys one entry adds to the grouping. */
  lemma AddEntryKeys(logs: Logs, item: Item, kind: string, category: string)
    ensures kind in AddEntry(logs, item) <==> kind in logs || item.entry.typeLabel == kind
    ensures kind in AddEntry(logs, item) ==>
      (category in AddEntry(logs, item)[kind] <==>
        (kind in logs && category in logs[kind]) || Matches(item, kind, category))
  {
  }

  /** Some item has a property exactly when some earlier one or the last
      one has it. */
  lemma LastSplit(items: seq<Item>, kind: string, category: string)
    requires items != []
    ensures var pre, x := items[..|items| - 1], items[|items| - 1];
      && ((exists i :: 0 <= i < |items| && items[i].entry.typeLabel == kind) <==>
          (exists i :: 0 <= i < |pre| && pre[i].entry.typeLabel == kind) || x.entry.typeLabel == kind)
      && ((exists i :: 0 <= i < |items| && Matches(items[i], kind, category)) <==>
          (exists i :: 0 <= i < |pre| && Matches(pre[i], kind, category)) || Matches(x, kind, category))
  {
    var pre := items[..|items| - 1];
    assert forall i :: 0 <= i < |pre| ==> pre[i] == items[i];
  }

  /** Within one type and category no two logs share a title, and every log
      lists at least one commit. */
  lemma BucketShape(items: seq<Item>, kind: string, category: string)
    ensures var b := Bucket(Collect(items), kind, category);
      && (forall i, j :: 0 <= i < j < |b| ==> b[i].title != b[j].title)
      && (forall i :: 0 <= i < |b| ==> b[i].commits != [])
  {
    CollectBuckets(items, kind, category);
    var b := Bucket(Collect(items), kind, category);
    var ts := Dedup(Titles(items, kind, category));
    forall i | 0 <= i < |b| ensures b[i].commits != [] {
      assert ts[i] in ts;
      ShasForEmpty(items, kind, category, ts[i]);
    }
  }

  /** A kept item's hash is among the hashes of its title. */
  lemma {:induction false} ShasForMember(items: seq<Item>, i: nat)
    requires i < |items|
    ensures var e := items[i].entry;
      items[i].sha in ShasFor(items, e.typeLabel, e.category, e.title)
    decreases |items|
  {
    var pre := items[..|items| - 1];
    if i < |pre| {
      ShasForMember(pre, i);
      assert pre[i] == items[i];
    }
  }

  /** Every kept item is on a log of its type, category and title: the log
      that lists all the hashes of that title. */
  lemma LogOfItem(items: seq<Item>, i: nat)
    requires i < |items|
    ensures var e := items[i].entry;
      var shas := ShasFor(items, e.typeLabel, e.category, e.title);
      && e.typeLabel in Collect(items) && e.category in Collect(items)[e.typeLabel]
      && Log(e.title, shas) in Collect(items)[e.typeLabel][e.category]
      && items[i].sha in shas
  {
    var e := items[i].entry;
    ShasForMember(items, i);
    CollectKeys(items, e.typeLabel, e.category);
    assert Matches(items[i], e.typeLabel, e.category);
    CollectBuckets(items, e.typeLabel, e.category);
    ShasForEmpty(items, e.typeLabel, e.category, e.title);
    var ts := Dedup(Titles(items, e.typeLabel, e.category));
    assert e.title in ts;
    var j :| 0 <= j < |ts| && ts[j] == e.title;
    assert Grouped(items, e.typeLabel, e.category)[j] == Log(e.title, ShasFor(items, e.typeLabel, e.category, e.title));
  }

  // ---------------------------------------------------------------------
  // Every kept hash is on exactly one log.

  /** How often `h` occurs in `xs`. */
  function Occurrences(xs: seq<string>, h: string): nat
    decreases |xs|
  {
    if xs == [] then 0
    else Occurrences(xs[..|xs| - 1], h) + (if xs[|xs| - 1] == h then 1 else 0)
  }

  /** How often `h` occurs on the logs of a bucket, all logs together. */
  function LogCount(bucket: seq<Log>, h: string): nat
    decreases |bucket|
  {
    if bucket == [] then 0
    else LogCount(bucket[..|bucket| - 1], h) + Occurrences(bucket[|bucket| - 1].commits, h)
  }

  /** How many items of one type and category have the hash `h`. */
  function MatchingCount(items: seq<Item>, kind: string, category: string, h: string): nat
    decreases |items|
  {
    if items == [] then 0
    else
      var last := items[|items| - 1];
      MatchingCount(items[..|items| - 1], kind, category, h) +
        (if Matches(last, kind, category) && last.sha == h then 1 else 0)
  }

  predicate UniqueShas(items: seq<Item>) {
    forall i, j :: 0 <= i < j < |items| ==> items[i].sha != items[j].sha
  }

  /** Replacing one log changes the bucket's count by that log's counts. */
  lemma {:induction false} LogCountUpdate(b: seq<Log>, i: nat, l: Log, h: string)
    requires i < |b|
    ensures LogCount(b[i := l], h) + Occurrences(b[i].commits, h) == LogCount(b, h) + Occurrences(l.commits, h)
    decreases |b|
  {
    var n := |b| - 1;
    var c := b[i := l];
    if i == n {
      assert c[..n] == b[..n];
    } else {
      LogCountUpdate(b[..n], i, l, h);
      assert c[..n] == b[..n][i := l] && c[n] == b[n] && b[..n][i] == b[i];
    }
  }

  /** Adding a commit to a bucket adds its hash once. */
  lemma AddToBucketCount(b: seq<Log>, title: string, sha: string, h: string)
    ensures LogCount(AddToBucket(b, title, sha), h) == LogCount(b, h) + (if sha == h then 1 else 0)
  {
    var i := TitleIndex(b, title);
    var r := AddToBucket(b, title, sha);
    if i == -1 {
      var l := Log(title, [sha]);
      assert r == b + [l];
      assert r[..|b|] == b && r[|b|] == l;
      assert [sha][..0] == [];
      assert Occurrences([sha], h) == Occurrences([], h) + (if sha == h then 1 else 0);
      assert LogCount(r, h) == LogCount(b, h) + Occurrences([sha], h);
    } else {
      var l := Log(b[i].title, b[i].commits + [sha]);
      assert r == b[i := l];
      LogCountUpdate(b, i, l, h);
      assert l.commits[..|l.commits| - 1] == b[i].commits;
    }
  }

  /** The hashes on a bucket's logs are exactly the hashes of the items of
      its type and category, each as often as it occurs among them: the two
      multisets agree on every hash. */
  lemma {:induction false} BucketShas(items: seq<Item>, kind: string, category: string, h: string)
    ensures LogCount(Bucket(Collect(items), kind, category), h) == MatchingCount(items, kind, category, h)
    decreases |items|
  {
    if items != [] {
      var pre := items[..|items| - 1];
      var x := items[|items| - 1];
      BucketShas(pre, kind, category, h);
      BucketAdd(Collect(pre), x, kind, category);
      if Matches(x, kind, category) {
        AddToBucketCount(Bucket(Collect(pre), kind, category), x.entry.title, x.sha, h);
      }
    }
  }

  lemma {:induction false} ShaAbsent(items: seq<Item>, kind: string, category: string, h: string)
    requires forall j :: 0 <= j < |items| ==> items[j].sha != h
    ensures MatchingCount(items, kind, category, h) == 0
    decreases |items|
  {
    if items != [] {
      var pre := items[..|items| - 1];
      assert forall j :: 0 <= j < |pre| ==> pre[j] == items[j];
      ShaAbsent(pre, kind, category, h);
    }
  }

  lemma {:induction false} MatchingOnce(items: seq<Item>, i: nat, kind: string, category: string)
    requires UniqueShas(items) && i < |items|
    ensures MatchingCount(items, kind, category, items[i].sha) ==
      if Matches(items[i], kind, category) then 1 else 0
    decreases |items|
  {
    var pre := items[..|items| - 1];
    var x := items[|items| - 1];
    var h := items[i].sha;
    assert forall j :: 0 <= j < |pre| ==> pre[j] == items[j];
    if i == |items| - 1 {
      ShaAbsent(pre, kind, category, h);
    } else {
      assert UniqueShas(pre);
      MatchingOnce(pre, i, kind, category);
      assert x.sha != h;
    }
  }

  /** With distinct hashes, a kept commit's hash appears once in the bucket
      of its type and category and in no other bucket. */
  lemma KeptOnce(items: seq<Item>, i: nat, kind: string, category: string)
    requires UniqueShas(items) && i < |items|
    ensures LogCount(Bucket(Collect(items), kind, category), items[i].sha) ==
      if Matches(items[i], kind, category) then 1 else 0
  {
    BucketShas(items, kind, category, items[i].sha);
    MatchingOnce(items, i, kind, category);
  }
}
