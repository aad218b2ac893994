/**
 * The fixed table from commit type keys to section labels (`TYPES` in
 * src/changelog.ts), with `other` as the fallback for unknown keys.
 */
module ChangeTypes {
  import opened Strings

  const TYPES: map<string, string> := map[
    "breaking" := "🚨 Breaking Changes",
    "build" := "Build System / Dependencies",
    "ci" := "🔧 CI/CD",
    "chore" := "🗑 Chores",
    "change" := "👀 Changes",
    "docs" := "📖 Documentation",
    "feat" := "💡 New Features",
    "fix" := "🐛 Bug Fixes",
    "other" := "Other Changes",
    "perf" := "🚀 Performance Improvements",
    "refactor" := "♻ Refactors",
    "revert" := "Reverts",
    "style" := "🎀 Code Style Changes",
    "test" := "Tests"
  ]

  /** `Object.values(TYPES)`: the labels in declaration order. */
  const LABELS: seq<string> := [
    "🚨 Breaking Changes",
    "Build System / Dependencies",
    "🔧 CI/CD",
    "🗑 Chores",
    "👀 Changes",
    "📖 Documentation",
    "💡 New Features",
    "🐛 Bug Fixes",
    "Other Changes",
    "🚀 Performance Improvements",
    "♻ Refactors",
    "Reverts",
    "🎀 Code Style Changes",
    "Tests"
  ]

  const OTHER_LABEL := "Other Changes"

  /** `TYPES[key] ?? TYPES.other`. */
  function LabelOf(key: string): string {
    if key in TYPES then TYPES[key] else TYPES["other"]
  }

  /** An exclude entry: a type key is replaced by its label, anything else
      is kept as it is (`TYPES[type] ?? type`). */
  function ExcludedLabel(entry: string): string {
    if entry in TYPES then TYPES[entry] else entry
  }

  /** Every key maps to one of the listed labels, and to the fallback
      label exactly when it is `other` or not a listed key. */
  lemma LabelOfSpec(key: string)
    ensures LabelOf(key) in LABELS
    ensures key in TYPES ==> LabelOf(key) == TYPES[key]
    ensures LabelOf(key) == OTHER_LABEL <==> (key !in TYPES || key == "other")
  {
  }

  /** No label is listed twice: their first characters already differ. */
  lemma LabelsDistinct()
    ensures forall i, j :: 0 <= i < j < |LABELS| ==> LABELS[i] != LABELS[j]
  {
    var firsts := seq(|LABELS|, i requires 0 <= i < |LABELS| => LABELS[i][0]);
    assert firsts == ['\U{1F6A8}', 'B', '\U{1F527}', '\U{1F5D1}', '\U{1F440}', '\U{1F4D6}',
      '\U{1F4A1}', '\U{1F41B}', 'O', '\U{1F680}', '\U{267B}', 'R', '\U{1F380}', 'T'];
    forall i, j | 0 <= i < j < |LABELS| ensures LABELS[i] != LABELS[j] {
      assert firsts[i] != firsts[j];
    }
  }

  /** An exclude entry names the label its key maps to, or itself. */
  lemma ExcludedLabelSpec(entry: string)
    ensures entry in TYPES ==> ExcludedLabel(entry) == LabelOf(entry) && ExcludedLabel(entry) in LABELS
    ensures entry !in TYPES ==> ExcludedLabel(entry) == entry
  {
    LabelOfSpec(entry);
  }

  /** Excluding `fix` excludes the bug-fix section. */
  lemma ExcludedFixExample()
    ensures ExcludedLabel("fix") == "🐛 Bug Fixes"
  {
  }

  /** The labels in ascending order. */
  const SORTED_LABELS: seq<string> := [
    "Build System / Dependencies", "Other Changes", "Reverts", "Tests",
    "♻ Refactors", "🎀 Code Style Changes", "🐛 Bug Fixes", "👀 Changes",
    "💡 New Features", "📖 Documentation", "🔧 CI/CD", "🗑 Chores",
    "🚀 Performance Improvements", "🚨 Breaking Changes"]

  /** `Object.values(TYPES).sort()`: the labels in ascending order. */
  lemma SortedLabels()
    ensures SortSet(set l | l in LABELS) == SORTED_LABELS
  {
    SortedLabelsAscend();
    SortedByNeighbours(SORTED_LABELS);
    assert forall x :: x in SORTED_LABELS <==> x in LABELS;
    SortSetUnique((set l | l in LABELS), SORTED_LABELS);
  }

  /** Each label is below the next: their first characters already are. */
  lemma SortedLabelsAscend()
    ensures forall i :: 0 <= i < |SORTED_LABELS| - 1 ==> Less(SORTED_LABELS[i], SORTED_LABELS[i + 1])
  {
    var r := SORTED_LABELS;
    var firsts := seq(|r|, i requires 0 <= i < |r| => r[i][0]);
    assert firsts == ['B', 'O', 'R', 'T', '\U{267B}', '\U{1F380}', '\U{1F41B}', '\U{1F440}',
      '\U{1F4A1}', '\U{1F4D6}', '\U{1F527}', '\U{1F5D1}', '\U{1F680}', '\U{1F6A8}'];
    forall i | 0 <= i < |r| - 1 ensures Less(r[i], r[i + 1]) {
      FirstCharLess(r[i], r[i + 1]);
    }
  }

  lemma FirstCharLess(a: string, b: string)
    requires a != [] && b != [] && a[0] < b[0]
    ensures Less(a, b)
  {
  }

  lemma {:induction false} SortedByNeighbours(r: seq<string>)
    requires forall i :: 0 <= i < |r| - 1 ==> Less(r[i], r[i + 1])
    ensures StrictlySorted(r)
  {
    if |r| > 1 {
      SortedByNeighbours(r[1..]);
      forall j | 1 <= j < |r| ensures Less(r[0], r[j]) {
        if j > 1 {
          assert Less(r[1..][0], r[1..][j - 1]);
          LessEqTransitive(r[0], r[1], r[j]);
          if r[0] == r[j] { LessEqAntisymmetric(r[0], r[1]); }
        }
      }
      forall i, j | 0 <= i < j < |r| ensures Less(r[i], r[j]) {
        if i > 0 { assert Less(r[1..][i - 1], r[1..][j - 1]); }
      }
    }
  }
}
