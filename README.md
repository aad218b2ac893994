# auto-changelog, modelled in Dafny

This project models the core of auto-changelog, a GitHub Action that writes a
Markdown changelog for the commits between two release tags. The model has two
parts.

- **`generate`** (src/changelog.ts). It walks the commit pages newest first and
  stops at the commit whose hash is `tagRef`. It keeps the newest committer
  date. It parses the first line of each commit message with `COMMIT_REGEX`,
  drops commits without a title or flagged `[ignore]`, maps the type through
  `TYPES`, and trims the category and the title. It turns `#<n>` references into
  pull-request links and groups the commits by label, category and title. Then
  it renders a header, one `###` section per label in ascending order, the
  categories in ascending order, and one line per title with the abbreviated
  commit links.
- **The tag-selection step of `run`** (src/index.ts). It splits the `exclude`
  input at commas, asks for the first two listed tags, and keeps those whose
  names match `SEMVER_REGEX`. The first
  version tag is the newer tag. The second, or the first again when there is
  only one, is the older tag. A missing tag makes the action fail. The compare
  string `older...newer` is built, and `generate` is called.

Modules, one per file, in dependency order:

| file | module | what it holds |
|---|---|---|
| wrappers.dfy | `Wrappers` | `Option` |
| strings.dfy | `Strings` | JavaScript white space, `trim`, string order, the key sort, `split`/`join` |
| change_types.dfy | `ChangeTypes` | the `TYPES` table and its lookups |
| commit_grammar.dfy | `CommitGrammar` | `COMMIT_REGEX`: what a match is, and a backtracking recogniser proved to return the match the regular expression returns |
| pull_links.dfy | `PullLinks` | the `PR_REGEX` rewrite |
| entries.dfy | `Entries` | one commit: the date maximum, its first line, the entry it yields |
| grouping.dfy | `Grouping` | the `Logs` grouping, built step by step and described directly |
| render.dfy | `Render` | the lines of the document |
| changelog.dfy | `Changelog` | the `generate` loops, proved equal to a declarative `Document`, plus what the document holds |
| release.dfy | `Release` | `SEMVER_REGEX`, tag selection, the exclude list, `run` as written and corrected |

The code that changes things step by step is written as methods:

- the `paginator` loop (`Changelog.Scan`, `Changelog.Visit`, `Changelog.Record`);
- `findIndex` (`Grouping.FindIndex`);
- `Object.keys(...).sort()` (`Strings.SortKeys`);
- the rendering `reduce` with its nested loops (`Changelog.RenderBody`,
  `PushSection`, `PushGroups`, `PushCategory`, `PushLogs`);
- `run` (`Release.Run`, `Release.RunCorrected`).

Each method is proved equal to a function of its inputs, and the lemmas state
what those functions promise.

I/O and the host are parameters:

- `pages` are the commit pages `listCommits` returns;
- `history(ref)` gives the pages for a ref;
- `listing` is the repository's tags in the order the host lists them; the
  one `listTags` call asks for `per_page: 2`, so `run` sees only the first two
  (`Release.ListTags`);
- `formatDate` stands for the `moment` formatting of the header date, with the
  clock for a missing date.

src/index.ts picks the tags by their position in the `listTags` answer. It
neither orders them by version nor drops prereleases.

## Model

| member | source | states |
|---|---|---|
| Strings.Trim | src/changelog.ts:121-124 | the result has no white space at either end, no two adjacent spaces, and the same non-space characters as the input with its ends trimmed; its value is fixed by Strings.TrimWords |
| Strings.TrimStart | src/changelog.ts:123 | the result is a suffix of the input, and everything cut off is JavaScript white space |
| Strings.TrimEnd | src/changelog.ts:123 | the result is a prefix of the input, and everything cut off is JavaScript white space |
| Strings.CollapseSpaces | src/changelog.ts:123 | no two spaces stay adjacent; the ends and every non-space character are kept in order |
| Strings.CollapseSpacesWords | src/changelog.ts:123 | collapsing keeps the words (the non-empty pieces between spaces) and the text before the first space, so a single space between words is kept |
| Strings.WordsArePieces | src/changelog.ts:121-124 | a string without double spaces or spaces at its ends splits at spaces into non-empty words only |
| Strings.TrimWords | src/changelog.ts:121-124 | `trim` is exactly the words of the input, with its white-space ends cut off, joined by single spaces |
| Strings.JoinHas | src/changelog.ts:109 | piece `i` of a join occurs in it as a slice starting at `Offset(xs, i)`, and a separator follows it unless it is the last |
| Strings.OffsetStep | src/changelog.ts:109 | the next piece starts one separator after the end of the current one |
| Strings.TrimFixed | src/changelog.ts:121-124 | a string already trimmed, with no double space, is left unchanged |
| Strings.TrimIdempotent | src/changelog.ts:121-124 | trimming twice is trimming once |
| Strings.LessEqTotal | src/changelog.ts:5 | the string order `>` is based on is total |
| Strings.LessEqTransitive | src/changelog.ts:5 | that order is transitive |
| Strings.LessEqAntisymmetric | src/changelog.ts:5 | that order is antisymmetric |
| Strings.SortSet | src/changelog.ts:95 | the sorted listing of a key set is strictly ascending and holds exactly the keys |
| Strings.SortSetUnique | src/changelog.ts:95 | a strictly ascending listing of a set's members is unique |
| Strings.FindLeast | src/changelog.ts:95 | the loop returns the least key of a non-empty set |
| Strings.SortKeys | src/changelog.ts:95 | the selection loop returns the unique ascending listing of the keys |
| Strings.Split | src/index.ts:10 | `split` gives at least one piece, and no piece holds the separator |
| Strings.JoinSplit | src/index.ts:10 | joining the pieces of a split gives the original string back |
| Strings.SplitJoin | src/index.ts:10 | splitting a join of separator-free pieces gives the pieces back |
| ChangeTypes.LabelOfSpec | src/changelog.ts:56-58 | a type key maps to a listed label: its own label for a known key, and the `Other Changes` label exactly for `other` or an unknown key |
| ChangeTypes.LabelsDistinct | src/changelog.ts:129-144 | no label appears twice in `TYPES` |
| ChangeTypes.LabelOf | src/changelog.ts:56-58 | `TYPES[type] ?? TYPES.other`; ChangeTypes.LabelOfSpec states what it gives |
| ChangeTypes.ExcludedLabel | src/changelog.ts:18 | `TYPES[type] ?? type`; ChangeTypes.ExcludedLabelSpec ties it to LabelOf |
| ChangeTypes.ExcludedLabelSpec | src/changelog.ts:17-19 | an exclude entry that is a type key becomes the label that key maps to, `LabelOf(entry)`; any other entry stays as it is |
| ChangeTypes.ExcludedFixExample | src/changelog.ts:17-19 | excluding `fix` excludes `🐛 Bug Fixes` |
| ChangeTypes.SortedLabels | src/changelog.ts:85-87 | the labels sorted give exactly the listed order, `Build System / Dependencies` first and `🚨 Breaking Changes` last |
| CommitGrammar.Exec | src/changelog.ts:49 | `COMMIT_REGEX.exec(message)`; CommitGrammar.ExecSpec and CommitGrammar.ExecNone pin its result to the preferred match or to its absence |
| CommitGrammar.IndexOf | src/changelog.ts:126 | the position returned is the first `c` at or after `from`, or the end |
| CommitGrammar.ExecSpec | src/changelog.ts:126 | `exec` returns captures exactly when they are a match of the pattern and the matcher prefers them to every other match: the longest type, then the shortest title |
| CommitGrammar.ExecNone | src/changelog.ts:126 | `exec` fails exactly when no captures match the line |
| CommitGrammar.MatchUnique | src/changelog.ts:126 | two matches with types and titles of the same length are the same match |
| CommitGrammar.MatchLayout | src/changelog.ts:126 | a match lays the line out as type, optional `(category)`, `:`, title, then an optional `[flag]` and trailing white space |
| CommitGrammar.MatchFromSound | src/changelog.ts:126 | what the backtracking search finds is a match |
| CommitGrammar.MatchFromComplete | src/changelog.ts:126 | the search finds a match whenever one exists, and it is preferred to every match it can reach |
| CommitGrammar.LastColonType | src/changelog.ts:126 | on a line without parentheses, the type runs to the last `:` with no category |
| CommitGrammar.NestedColonExample | src/changelog.ts:126 | `fix: a: b` gets the type `fix: a` |
| PullLinks.Link | src/changelog.ts:64 | the replacement `[#n](<repo>/pull/n)`; PullLinks.RewriteRef states where it goes |
| PullLinks.DigitRun | src/changelog.ts:127 | the greedy `\d*` run is a prefix made of digits, followed by a non-digit or the end |
| PullLinks.Rewrite | src/changelog.ts:62-65 | the rewrite never shortens a title, and it lengthens one that starts with a reference |
| PullLinks.RewriteUnchanged | src/changelog.ts:62-65 | a title is left unchanged if and only if no `#` in it is followed by a digit from 1 to 9 |
| PullLinks.RewriteRef | src/changelog.ts:62-65 | `#` and a maximal run of digits starting 1-9 becomes exactly one link `[#n](<repo>/pull/n)` |
| PullLinks.RewriteZero | src/changelog.ts:127 | `#0` is not a reference and stays as written |
| PullLinks.RewriteAppend | src/changelog.ts:62-65 | the global replace works piece by piece when the cut does not split a number |
| Entries.MaxDate | src/changelog.ts:4-6 | the result is one of the two dates and at least as large as both |
| Entries.FirstLine | src/changelog.ts:47 | the first line is the longest prefix of the message without a line feed |
| Entries.EntryOf | src/changelog.ts:56-65 | the entry's label is a listed label; the category has no white space at either end and no double space; a title without references is only trimmed |
| Entries.Classify | src/changelog.ts:47-65 | any entry a commit yields carries a listed label |
| Entries.ClassifySpec | src/changelog.ts:47-65 | a commit yields entry `e` exactly when the regular expression's match on its first line has a non-empty title and no `ignore` flag, and `e` is made from that match |
| Entries.ClassifySkipped | src/changelog.ts:49-54 | a commit is skipped exactly when its first line has no match, or the match has an empty title or an `ignore` flag |
| Entries.IgnoredSkipped | src/changelog.ts:53-54 | an `ignore` flag, trimmed, drops the commit whatever else it says |
| Grouping.TitleIndex | src/changelog.ts:70-72 | the index is the first log with the title, or -1 when no log has it |
| Grouping.FindIndex | src/changelog.ts:70-72 | the search loop returns that index |
| Grouping.AddEntry | src/changelog.ts:67-76 | one commit added to the grouping; Grouping.BucketAdd, Grouping.AddEntryKeys and Grouping.AddToBucketCount state its effect |
| Grouping.Collect | src/changelog.ts:26-78 | the grouping after the kept commits; Grouping.CollectBuckets, Grouping.CollectKeys and Grouping.BucketShas state what it holds |
| Grouping.Dedup | src/changelog.ts:67-76 | the titles listed once each, holding exactly the titles of the input |
| Grouping.Grouped | src/changelog.ts:67-76 | the logs of one label and category described directly: one per distinct title, in first-seen order |
| Grouping.CollectBuckets | src/changelog.ts:67-76 | adding commits one at a time gives, for each label and category, one log per distinct title in first-seen order, holding every hash with that title in scan order |
| Grouping.CollectKeys | src/changelog.ts:67-68 | a label is a key exactly when some kept commit has it; a category is a key under it exactly when some kept commit has both |
| Grouping.BucketShape | src/changelog.ts:70-76 | within one label and category no two logs share a title, and every log lists at least one commit |
| Grouping.LogOfItem | src/changelog.ts:67-76 | every kept commit has its hash on the log of its label, category and title |
| Grouping.AddToBucketCount | src/changelog.ts:74-76 | pushing a commit onto a bucket adds its hash exactly once, whether as a new log or on the existing one |
| Grouping.BucketShas | src/changelog.ts:67-76 | for every hash, its number of occurrences on a bucket's logs equals the number of kept commits of that label and category with that hash: the two multisets of hashes agree |
| Grouping.KeptOnce | src/changelog.ts:67-76 | with distinct hashes, a kept commit's hash occurs exactly once in the bucket of its label and category and in no other bucket |
| Render.Abbrev | src/changelog.ts:108 | `slice(0, 8)` gives the first 8 characters, or the whole hash when it is shorter |
| Render.ShaLinkParts | src/changelog.ts:108 | a link shows the hash's first eight characters (the whole hash when shorter) and ends with the whole hash |
| Render.ShaLinkInjective | src/changelog.ts:108 | different hashes get different links |
| Render.EntryLine | src/changelog.ts:107-109 | the line of one log; Render.LinkListed and Render.EntryLineNotHeading state what it holds |
| Render.LinkListed | src/changelog.ts:107-109 | the link of the i-th hash of a log sits in the log's line at `LinkStart(i)`, followed by a comma unless it is the last hash |
| Render.LinksInOrder | src/changelog.ts:107-109 | the links are in commit order: the link of hash i + 1 starts right after the comma that ends the link of hash i |
| Render.EntryLineNotHeading | src/changelog.ts:107 | no entry line is a `###` heading |
| Render.EntryLinesIndex | src/changelog.ts:105-111 | there is one line per log, the i-th for the i-th log |
| Render.SectionLines | src/changelog.ts:93-113 | one label's section; Render.SectionHeadings states it has exactly one heading, its label |
| Render.SectionHeadings | src/changelog.ts:93-113 | a section has exactly one `###` heading, naming its label |
| Render.BodyLines | src/changelog.ts:85-116 | the `reduce` described directly; Render.BodyHeadings and Render.LogListed state what it holds |
| Render.HeaderLines | src/changelog.ts:80-83 | the header; Render.HeaderHeadings states neither line is a heading |
| Render.HeaderHeadings | src/changelog.ts:80-83 | neither header line is a `###` heading |
| Render.BodyHeadings | src/changelog.ts:85-116 | the body's `###` headings are the given labels that have entries, in the given order |
| Render.PresentSpec | src/changelog.ts:89-91 | a label has a section exactly when it is included and has entries, and sorted labels stay sorted |
| Render.LogListed | src/changelog.ts:97-111 | every log of an included label and one of its categories has its line in the body |
| Changelog.TakeUntil | src/changelog.ts:35-40 | the scan takes a prefix of the commits in which no hash is `tagRef`; it stops only at a `tagRef` commit or at the end |
| Changelog.TakeUntilStops | src/changelog.ts:35-40 | the scan stops at the first `tagRef` commit and at no other place |
| Changelog.LatestDateBounds | src/changelog.ts:42-45 | there is a latest date exactly once a commit has been scanned; it is no earlier than `1999-09-09` and no earlier than any committer date |
| Changelog.LatestDateWitness | src/changelog.ts:42-45 | the latest date is `1999-09-09` or the date of a scanned commit |
| Changelog.KeptComplete | src/changelog.ts:47-76 | every scanned commit that yields an entry is kept with that entry |
| Changelog.KeptSound | src/changelog.ts:47-76 | every kept item comes from a scanned commit with its hash that yields its entry |
| Changelog.LatestDate | src/changelog.ts:42-45 | the date fold; Changelog.LatestDateBounds and Changelog.LatestDateWitness make it the maximum |
| Changelog.Kept | src/changelog.ts:47-65 | the commits that yield an entry; Changelog.KeptComplete and Changelog.KeptSound pin it |
| Changelog.RepoUrl | src/changelog.ts:22 | `https://github.com/<owner>/<repo>`, the prefix of every commit and pull link |
| Changelog.CompareUrl | src/changelog.ts:21 | the compare link; Release.AsWrittenScansAll and Release.CorrectedScansRelease state it for both wirings |
| Changelog.ExcludedLabels | src/changelog.ts:17-19 | one label per exclude entry |
| Changelog.ExcludedLabelsSpec | src/changelog.ts:17-19 | a label is excluded exactly when some exclude entry maps to it |
| Changelog.IncludedKinds | src/changelog.ts:85-87 | the included labels strictly ascend and are exactly the listed labels no exclude entry maps to |
| Changelog.ExcludedKeyDropsSection | src/changelog.ts:17-19 | excluding a type key removes the section of its label; a listed label keeps its section exactly when no exclude entry names it |
| Changelog.Record | src/changelog.ts:67-76 | the in-place update equals adding the commit to the grouping |
| Changelog.Visit | src/changelog.ts:42-76 | one loop pass takes the grouping and the latest date of the commits so far to those of one commit more |
| Changelog.Scan | src/changelog.ts:26-78 | the `paginator` loop gives the grouping and the latest date of exactly the commits before the first `tagRef` commit across all pages |
| Changelog.PushLogs | src/changelog.ts:105-111 | the loop appends one entry line per log |
| Changelog.PushCategory | src/changelog.ts:98-111 | a category line unless the category is the default one, then its entry lines |
| Changelog.PushGroups | src/changelog.ts:97-112 | the categories' lines, in the given order |
| Changelog.PushSection | src/changelog.ts:93-115 | heading, blank line, the categories in ascending order, blank line |
| Changelog.RenderBody | src/changelog.ts:85-116 | the `reduce` appends a section for each included label that has entries |
| Changelog.Generate | src/changelog.ts:8-119 | the changelog is the header and body lines of the scanned commits, joined by line feeds |
| Changelog.DocumentLines | src/changelog.ts:80-118 | header lines then body lines of the scanned commits; Changelog.DocumentHeadings and Changelog.CommitListed state what it holds |
| Changelog.Document | src/changelog.ts:118 | the lines joined by line feeds; Changelog.Generate is proved equal to it |
| Changelog.KeptKinds | src/changelog.ts:47-76 | some kept item has a label exactly when some scanned commit yields that label |
| Changelog.DocumentHeadings | src/changelog.ts:80-118 | the document's section headings are the included labels that have entries, in ascending order |
| Changelog.HeadingSpec | src/changelog.ts:85-116 | the headings strictly ascend; a label has one exactly when it is not excluded and some scanned commit yields it |
| Changelog.CommitListed | src/changelog.ts:47-118 | every scanned commit whose entry has an included label is listed: the document holds its title's line, and that line carries the commit's hash |
| Release.VersionNameSpec | src/index.ts:5 | a name passes `SEMVER_REGEX` exactly when it is the text of a well-formed version |
| Release.ParseVersion | src/index.ts:5 | the parse behind `SEMVER_REGEX`; Release.VersionRoundTrip and Release.VersionSound make it the inverse of printing |
| Release.VersionRoundTrip | src/index.ts:5 | the text of a well-formed version parses back to that version |
| Release.VersionSound | src/index.ts:5 | a name that parses is the text of the well-formed version it parses to |
| Release.PlainVersionName | src/index.ts:5 | `v1.2.3` is a version name |
| Release.FullVersionName | src/index.ts:5 | `v10.0.1-rc.1+build-5` is a version name |
| Release.MissingPatchRejected | src/index.ts:5 | `v1.2` is not |
| Release.ListTags | src/index.ts:18-22 | the `listTags` answer: the first `per_page` = 2 tags of the listing, or all of them when there are fewer |
| Release.FirstPageOnly | src/index.ts:18-25 | when the first two listed tags are not versions, no version tag is seen, whatever comes later |
| Release.VersionTags | src/index.ts:25 | the filter keeps no more tags than were listed |
| Release.VersionTagsMembers | src/index.ts:25 | the filter keeps exactly the tags whose names are versions |
| Release.VersionTagAt | src/index.ts:25 | the filter keeps the listing order: the n-th version tag has exactly n version tags before it in the listing |
| Release.SelectRange | src/index.ts:27-35 | a range is chosen exactly when there is a version tag |
| Release.SelectSpec | src/index.ts:27-35 | nothing is chosen exactly when no name is a version; otherwise the newer tag is the first version tag listed, and the older tag is the second one listed or, with only one, the newer tag |
| Release.CompareString | src/index.ts:47 | `${older}...${newer}`; Release.CompareInjective states it names both tags |
| Release.CompareInjective | src/index.ts:47 | the compare string determines both tag names |
| Release.ExcludeList | src/index.ts:10 | there is at least one key, and no key holds a comma |
| Release.ExcludeListSpec | src/index.ts:10 | the keys join back into the input; an empty input gives one empty key; comma-free keys are cut out as given |
| Release.Run | src/index.ts:7-56 | with no version tag among the two listed first the action fails; otherwise it publishes `generate`'s document for the arguments the call passes, as written |
| Release.AsWrittenScansAll | src/index.ts:41-48 | as written, the scan starts at the older tag's commit and never stops, and the compare link ends in `undefined` |
| Release.RunCorrected | src/index.ts:41-48 | corrected: the scan runs from the workflow's commit and stops at the older tag's commit, and the compare range is given |
| Release.CorrectedScansRelease | src/index.ts:41-48 | corrected, exactly the commits before the older tag's commit are scanned, and the compare link names the two tags |

## Left out

- Network and pagination. `listCommits` and `listTags` are not modelled as calls. The commit pages are the `pages` parameter, and `history` stands for the commit listing of a ref. `listTags` is called once with `per_page: 2` and is not paginated; `Release.ListTags` keeps the first two tags of the `listing` parameter as its answer.
- The page size `per_page: 100` of `listCommits` is not modelled: the pages may have any length, and the scan reads them all in order.
- Date formatting. `moment(...).add(9, "h").format(...)` and the current time for a missing date are the `formatDate` parameter.
- `console.log`, `info`, `getInput`, `setOutput` and `setFailed` are I/O. The output is the `Outcome` value, and a failure carries no message text.
- Failures other than a missing tag are not modelled: network errors, and errors thrown inside `generate`.
- Keys inherited from `Object.prototype` (such as `constructor`, `toString` or `__proto__`) are not modelled. Used as a type key or category, such keys pick up inherited values in `TYPES[...]` and `commits[...][...]`. The model treats every key as an own key, so such a type falls back to `Other Changes` and such a category is an ordinary category.
- Strings are sequences of Unicode code points, while JavaScript compares and slices UTF-16 code units. The two orders agree on the fixed labels. For categories, dates and hashes they differ only where a character above U+FFFF meets one in U+E000–U+FFFF.
- `src/index.ts:14` reads `context.sha` but never uses it. The corrected `run` takes it as the `headSha` parameter.
- Changelog.Generate: `branchRef` is accepted but not used by the model, because the commit pages for it arrive already listed.

## Findings

| source | as written | input that shows it | evidently intended | confidence | as-written member | corrected member |
|---|---|---|---|---|---|---|
| src/index.ts:41-48 | `generate` gets six arguments: the older tag's hash as `branchRef`, the compare string as `tagRef`, and no `compareRange` | tags `v1.0.1` (commit B) and `v1.0.0` (commit A): the listing is read from A, so nothing newer than A is seen; no hash equals `v1.0.0...v1.0.1`, so the scan runs to the start of the history and includes A itself; the link reads `/compare/undefined` | `branchRef` = the workflow's commit (`context.sha`), `tagRef` = the older tag's hash, `compareRange` = `v1.0.0...v1.0.1` | not executed | Release.Run, Release.AsWrittenScansAll | Release.RunCorrected, Release.CorrectedScansRelease |
