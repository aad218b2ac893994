/**
 * The action entry point in src/index.ts: the exclude input split on
 * commas, the listed tags filtered by `SEMVER_REGEX`, the older and newer
 * tag chosen by position, and the call to `generate`.
 */
module Release {
  import opened Wrappers
  import opened Strings
  import opened PullLinks
  import opened CommitGrammar
  import opened Entries
  import opened Changelog

  /** A listed tag: its name and the hash of the commit it points at. */
  datatype Tag = Tag(name: string, sha: string)

  // ---------------------------------------------------------------------
  // `SEMVER_REGEX`.

  /** `[0-9A-Za-z-]`. */
  predicate IsIdentChar(c: char) {
    IsDigit(c) || ('A' <= c <= 'Z') || ('a' <= c <= 'z') || c == '-'
  }

  /** `[0-9]+`. */
  predicate Numeric(s: string) {
    s != [] && forall i :: 0 <= i < |s| ==> IsDigit(s[i])
  }

  /** `[0-9A-Za-z-]+`. */
  predicate Ident(s: string) {
    s != [] && forall i :: 0 <= i < |s| ==> IsIdentChar(s[i])
  }

  predicate NoDoubleDot(s: string) {
    forall i :: 0 <= i < |s| - 1 ==> !(s[i] == '.' && s[i + 1] == '.')
  }

  /** `[0-9A-Za-z-]+(?:\.[0-9A-Za-z-]+)*`: identifier characters and dots,
      with no dot first, last or next to another. */
  predicate DotIdents(s: string) {
    && s != []
    && (forall i :: 0 <= i < |s| ==> IsIdentChar(s[i]) || s[i] == '.')
    && s[0] != '.' && s[|s| - 1] != '.'
    && NoDoubleDot(s)
  }

  /** The parts of a version tag name: three numbers, the pre-release part
      after `-` and the build part after `+`. */
  datatype Version = Version(major: string, minor: string, patch: string, pre: Option<string>, build: Option<string>)

  predicate WellFormed(v: Version) {
    && Numeric(v.major) && Numeric(v.minor) && Numeric(v.patch)
    && (v.pre.Some? ==> DotIdents(v.pre.value))
    && (v.build.Some? ==> Ident(v.build.value))
  }

  function BuildText(build: Option<string>): string {
    if build.Some? then "+" + build.value else ""
  }

  function SuffixText(pre: Option<string>, build: Option<string>): string {
    (if pre.Some? then "-" + pre.value else "") + BuildText(build)
  }

  /** The tag name a version is written as. */
  function VersionText(v: Version): string {
    "v" + (v.major + ("." + (v.minor + ("." + (v.patch + SuffixText(v.pre, v.build))))))
  }

  /** `[0-9]+` at the start of `s`, taken greedily, and what follows it. */
  function ParseNumber(s: string): Option<(string, string)> {
    var d := DigitRun(s);
    if d == [] then None else Some((d, s[|d|..]))
  }

  /** `(?:\+[0-9A-Za-z-]+)?$`. */
  function ParseBuild(t: string): Option<Option<string>> {
    if t == [] then Some(None)
    else if t[0] == '+' && Ident(t[1..]) then Some(Some(t[1..]))
    else None
  }

  /** What follows the patch number: an optional pre-release part, which
      runs up to the first `+`, then an optional build part. */
  function ParseSuffix(r: string): Option<(Option<string>, Option<string>)> {
    if r != [] && r[0] == '-' then
      var j := IndexOf(r, '+', 1);
      var pre := r[1..j];
      if !DotIdents(pre) then None
      else
        match ParseBuild(r[j..])
        case None => None
        case Some(b) => Some((Some(pre), b))
    else
      match ParseBuild(r)
      case None => None
      case Some(b) => Some((None, b))
  }

  /** `\.[0-9]+` at the start of `r`, and what follows it. */
  function ParseDotNumber(r: string): Option<(string, string)> {
    if r == [] || r[0] != '.' then None else ParseNumber(r[1..])
  }

  /** The match of `SEMVER_REGEX` on a whole tag name, as its parts. */
  function ParseVersion(name: string): Option<Version> {
    if name == [] || name[0] != 'v' then None
    else
      match ParseNumber(name[1..])
      case None => None
      case Some((major, r1)) => ParseMinor(major, r1)
  }

  function ParseMinor(major: string, r1: string): Option<Version> {
    match ParseDotNumber(r1)
    case None => None
    case Some((minor, r2)) => ParsePatch(major, minor, r2)
  }

  function ParsePatch(major: string, minor: string, r2: string): Option<Version> {
    match ParseDotNumber(r2)
    case None => None
    case Some((patch, r3)) =>
      match ParseSuffix(r3)
      case None => None
      case Some((pre, build)) => Some(Version(major, minor, patch, pre, build))
  }

  /** `SEMVER_REGEX.test(name)`. */
  predicate IsVersionName(name: string) {
    ParseVersion(name).Some?
  }

  lemma NumberRoundTrip(d: string, rest: string)
    requires Numeric(d) && (rest == [] || !IsDigit(rest[0]))
    ensures ParseNumber(d + rest) == Some((d, rest))
  {
    DigitRunAppend(d, rest);
    assert (d + rest)[|d|..] == rest;
  }

  lemma NumberSound(s: string, d: string, rest: string)
    requires ParseNumber(s) == Some((d, rest))
    ensures Numeric(d) && s == d + rest && (rest == [] || !IsDigit(rest[0]))
  {
    assert s == s[..|d|] + s[|d|..];
  }

  lemma SuffixRoundTrip(pre: Option<string>, build: Option<string>)
    requires pre.Some? ==> DotIdents(pre.value)
    requires build.Some? ==> Ident(build.value)
    ensures ParseSuffix(SuffixText(pre, build)) == Some((pre, build))
  {
    var b := BuildText(build);
    if build.Some? {
      assert b[1..] == build.value;
    }
    assert ParseBuild(b) == Some(build);
    if pre.Some? {
      var p := pre.value;
      var r := SuffixText(pre, build);
      assert r == "-" + p + b;
      assert r != [] && r[0] == '-';
      assert r[1..1 + |p|] == p;
      assert r[1 + |p|..] == b;
      forall i | 1 <= i < 1 + |p| ensures r[i] != '+' {
        assert r[i] == p[i - 1];
      }
      IndexOfAt(r, '+', 1, 1 + |p|);
      var j := IndexOf(r, '+', 1);
      assert j == 1 + |p|;
      assert r[1..j] == p;
      assert r[j..] == b;
      assert DotIdents(r[1..j]);
      assert ParseBuild(r[j..]) == Some(build);
    } else {
      assert SuffixText(pre, build) == b;
    }
  }

  lemma SuffixSound(r: string, pre: Option<string>, build: Option<string>)
    requires ParseSuffix(r) == Some((pre, build))
    ensures pre.Some? ==> DotIdents(pre.value)
    ensures build.Some? ==> Ident(build.value)
    ensures SuffixText(pre, build) == r
  {
    if r != [] && r[0] == '-' {
      var j := IndexOf(r, '+', 1);
      assert r == "-" + r[1..j] + r[j..];
      if r[j..] != [] {
        assert r[j..] == "+" + r[j..][1..];
      }
    } else if r != [] {
      assert r == "+" + r[1..];
    }
  }

  /** Each segment of a version name that follows a dot starts with no dot
      and ends with none. */
  predicate SafeEnd(s: string) {
    s != [] && s[|s| - 1] != '.'
  }

  lemma DoubleDotAppend(a: string, b: string)
    requires NoDoubleDot(a) && NoDoubleDot(b) && SafeEnd(a)
    ensures NoDoubleDot(a + b)
    ensures (b == [] || SafeEnd(b)) ==> SafeEnd(a + b)
  {
    var s := a + b;
    forall i | 0 <= i < |s| - 1 ensures !(s[i] == '.' && s[i + 1] == '.') {
      if i + 1 < |a| {
        assert s[i] == a[i] && s[i + 1] == a[i + 1];
      } else if i + 1 == |a| {
        assert s[i] == a[|a| - 1];
      } else {
        assert s[i] == b[i - |a|] && s[i + 1] == b[i + 1 - |a|];
      }
    }
    if b == [] {
      assert s == a;
    }
  }

  lemma NumericDots(d: string)
    requires Numeric(d)
    ensures NoDoubleDot(d) && SafeEnd(d) && d[0] != '.'
  {
  }

  lemma ConsDots(c: char, x: string)
    requires NoDoubleDot(x) && SafeEnd(x) && (c != '.' || x[0] != '.')
    ensures NoDoubleDot([c] + x) && SafeEnd([c] + x) && ([c] + x)[0] == c
  {
    var s := [c] + x;
    forall i | 0 <= i < |s| - 1 ensures !(s[i] == '.' && s[i + 1] == '.') {
      if i > 0 { assert s[i] == x[i - 1]; }
      assert s[i + 1] == x[i];
    }
    assert s[|s| - 1] == x[|x| - 1];
  }

  /** The text after the patch number has no two dots in a row and does
      not end with a dot. */
  lemma SuffixDots(pre: Option<string>, build: Option<string>)
    requires pre.Some? ==> DotIdents(pre.value)
    requires build.Some? ==> Ident(build.value)
    ensures var t := SuffixText(pre, build); NoDoubleDot(t) && (t == [] || SafeEnd(t))
  {
    var b := BuildText(build);
    if build.Some? {
      var q := build.value;
      forall i | 1 <= i < |b| ensures b[i] != '.' {
        assert b[i] == q[i - 1];
      }
      assert b[|b| - 1] == q[|q| - 1];
    }
    if pre.Some? {
      var q := pre.value;
      var p := "-" + q;
      forall i | 0 <= i < |p| - 1 ensures !(p[i] == '.' && p[i + 1] == '.') {
        if i > 0 { assert p[i] == q[i - 1] && p[i + 1] == q[i]; }
      }
      assert p[|p| - 1] == q[|q| - 1];
      DoubleDotAppend(p, b);
    } else {
      assert SuffixText(pre, build) == b;
    }
  }

  /** A version name has no two dots in a row and does not end with a dot. */
  lemma VersionTextDots(v: Version)
    requires WellFormed(v)
    ensures NoDoubleDot(VersionText(v)) && SafeEnd(VersionText(v))
  {
    var t := SuffixText(v.pre, v.build);
    SuffixDots(v.pre, v.build);
    NumericDots(v.patch);
    DoubleDotAppend(v.patch, t);
    var x1 := v.patch + t;
    assert x1[0] == v.patch[0];
    ConsDots('.', x1);
    var x2 := "." + x1;
    NumericDots(v.minor);
    DoubleDotAppend(v.minor, x2);
    var x3 := v.minor + x2;
    assert x3[0] == v.minor[0];
    ConsDots('.', x3);
    var x4 := "." + x3;
    NumericDots(v.major);
    DoubleDotAppend(v.major, x4);
    ConsDots('v', v.major + x4);
  }

  lemma DotNumberRoundTrip(d: string, rest: string)
    requires Numeric(d) && (rest == [] || !IsDigit(rest[0]))
    ensures ParseDotNumber("." + (d + rest)) == Some((d, rest))
  {
    assert ("." + (d + rest))[1..] == d + rest;
    NumberRoundTrip(d, rest);
  }

  lemma DotNumberSound(r: string, d: string, rest: string)
    requires ParseDotNumber(r) == Some((d, rest))
    ensures Numeric(d) && r == "." + (d + rest) && (rest == [] || !IsDigit(rest[0]))
  {
    NumberSound(r[1..], d, rest);
    assert r == "." + r[1..];
  }

  lemma PatchRoundTrip(v: Version)
    requires WellFormed(v)
    ensures ParsePatch(v.major, v.minor, "." + (v.patch + SuffixText(v.pre, v.build))) == Some(v)
  {
    var s := SuffixText(v.pre, v.build);
    SuffixRoundTrip(v.pre, v.build);
    assert s == [] || s[0] == '-' || s[0] == '+';
    DotNumberRoundTrip(v.patch, s);
  }

  lemma MinorRoundTrip(v: Version)
    requires WellFormed(v)
    ensures ParseMinor(v.major, "." + (v.minor + ("." + (v.patch + SuffixText(v.pre, v.build))))) == Some(v)
  {
    PatchRoundTrip(v);
    DotNumberRoundTrip(v.minor, "." + (v.patch + SuffixText(v.pre, v.build)));
  }

  /** Every well-formed version is a version tag name, and it parses back
      into itself. */
  lemma VersionRoundTrip(v: Version)
    requires WellFormed(v)
    ensures ParseVersion(VersionText(v)) == Some(v)
  {
    var r1 := "." + (v.minor + ("." + (v.patch + SuffixText(v.pre, v.build))));
    MinorRoundTrip(v);
    NumberRoundTrip(v.major, r1);
    var name := VersionText(v);
    assert name[1..] == v.major + r1;
  }

  lemma PatchSound(major: string, minor: string, r2: string, v: Version)
    requires ParsePatch(major, minor, r2) == Some(v)
    ensures v.major == major && v.minor == minor
    ensures Numeric(v.patch) && (v.pre.Some? ==> DotIdents(v.pre.value)) && (v.build.Some? ==> Ident(v.build.value))
    ensures r2 == "." + (v.patch + SuffixText(v.pre, v.build))
  {
    var (patch, r3) := ParseDotNumber(r2).value;
    DotNumberSound(r2, patch, r3);
    SuffixSound(r3, v.pre, v.build);
  }

  lemma MinorSound(major: string, r1: string, v: Version)
    requires ParseMinor(major, r1) == Some(v)
    ensures v.major == major && Numeric(v.minor) && Numeric(v.patch)
    ensures (v.pre.Some? ==> DotIdents(v.pre.value)) && (v.build.Some? ==> Ident(v.build.value))
    ensures r1 == "." + (v.minor + ("." + (v.patch + SuffixText(v.pre, v.build))))
  {
    var (minor, r2) := ParseDotNumber(r1).value;
    DotNumberSound(r1, minor, r2);
    PatchSound(major, minor, r2, v);
  }

  /** A name that parses is exactly the text of the well-formed version it
      parses into. */
  lemma VersionSound(name: string, v: Version)
    requires ParseVersion(name) == Some(v)
    ensures WellFormed(v) && VersionText(v) == name
  {
    NumberedSound(name[1..], v);
    assert name == "v" + name[1..];
  }

  /** What follows the `v` of a name that parses. */
  lemma NumberedSound(s: string, v: Version)
    requires ParseNumber(s).Some? && ParseMinor(ParseNumber(s).value.0, ParseNumber(s).value.1) == Some(v)
    ensures WellFormed(v) && s == v.major + ("." + (v.minor + ("." + (v.patch + SuffixText(v.pre, v.build)))))
  {
    var t := ParseNumber(s).value;
    NumberSound(s, t.0, t.1);
    MinorSound(t.0, t.1, v);
  }

  /** `SEMVER_REGEX` accepts a name exactly when it is the text of a
      well-formed version. */
  lemma VersionNameSpec(name: string)
    ensures IsVersionName(name) <==> exists v :: WellFormed(v) && VersionText(v) == name
  {
    if IsVersionName(name) {
      VersionSound(name, ParseVersion(name).value);
    }
    if exists v :: WellFormed(v) && VersionText(v) == name {
      var v :| WellFormed(v) && VersionText(v) == name;
      VersionRoundTrip(v);
    }
  }

  /** A plain release name is a version. */
  lemma PlainVersionName()
    ensures IsVersionName("v1.2.3")
  {
    var v := Version("1", "2", "3", None, None);
    assert VersionText(v) == "v1.2.3";
    VersionRoundTrip(v);
  }

  /** A name with pre-release and build parts is a version. */
  lemma FullVersionName()
    ensures IsVersionName("v10.0.1-rc.1+build-5")
  {
    var w := Version("10", "0", "1", Some("rc.1"), Some("build-5"));
    assert DotIdents("rc.1");
    assert VersionText(w) == "v10.0.1-rc.1+build-5";
    VersionRoundTrip(w);
  }

  /** A name without a patch number is not a version. */
  lemma MissingPatchRejected()
    ensures !IsVersionName("v1.2")
  {
    assert "v1.2"[1..] == "1" + ".2";
    NumberRoundTrip("1", ".2");
    assert ".2" == "." + ("2" + "");
    DotNumberRoundTrip("2", "");
  }

  // ---------------------------------------------------------------------
  // Choosing the tags.

  /** The number of tags the one `listTags` call asks for (`per_page: 2`). */
  const TAGS_PER_PAGE := 2

  /** The answer to that call: the first tags of the repository's listing,
      at most `TAGS_PER_PAGE` of them. */
  function ListTags(listing: seq<Tag>): (r: seq<Tag>)
    ensures |r| == if |listing| < TAGS_PER_PAGE then |listing| else TAGS_PER_PAGE
    ensures r == listing[..|r|]
  {
    if |listing| <= TAGS_PER_PAGE then listing else listing[..TAGS_PER_PAGE]
  }

  /** Only the first page is read: when the first two listed tags are not
      versions, no version tag is seen, whatever the listing holds later. */
  lemma FirstPageOnly(listing: seq<Tag>)
    requires |listing| >= 2 && !IsVersionName(listing[0].name) && !IsVersionName(listing[1].name)
    ensures VersionTags(ListTags(listing)) == []
  {
    var t := ListTags(listing);
    assert t == [listing[0], listing[1]];
    assert t[1..][1..] == [];
  }

  /** `tags.filter((t) => SEMVER_REGEX.test(t.name))`. */
  function VersionTags(tags: seq<Tag>): (r: seq<Tag>)
    ensures |r| <= |tags|
    decreases |tags|
  {
    if tags == [] then []
    else (if IsVersionName(tags[0].name) then [tags[0]] else []) + VersionTags(tags[1..])
  }

  /** The filter keeps exactly the tags whose names are versions. */
  lemma {:induction false} VersionTagsMembers(tags: seq<Tag>)
    ensures forall t :: t in VersionTags(tags) <==> t in tags && IsVersionName(t.name)
    decreases |tags|
  {
    if tags != [] {
      VersionTagsMembers(tags[1..]);
      assert tags == [tags[0]] + tags[1..];
    }
  }

  /** The `n`-th version tag is the listed tag preceded by exactly `n`
      version tags: the filter keeps the listing order. */
  lemma {:induction false} VersionTagAt(tags: seq<Tag>, n: nat)
    requires n < |VersionTags(tags)|
    ensures exists i :: 0 <= i < |tags| && tags[i] == VersionTags(tags)[n] &&
                        IsVersionName(tags[i].name) && |VersionTags(tags[..i])| == n
    decreases |tags|
  {
    var head := if IsVersionName(tags[0].name) then [tags[0]] else [];
    var rest := VersionTags(tags[1..]);
    assert VersionTags(tags) == head + rest;
    if head != [] && n == 0 {
      assert tags[..0] == [];
    } else {
      var m := n - |head|;
      assert VersionTags(tags)[n] == rest[m];
      VersionTagAt(tags[1..], m);
      var i :| 0 <= i < |tags[1..]| && tags[1..][i] == rest[m] &&
        IsVersionName(tags[1..][i].name) && |VersionTags(tags[1..][..i])| == m;
      PrefixStep(tags, i);
    }
  }

  lemma PrefixStep(tags: seq<Tag>, i: nat)
    requires i < |tags| - 1
    ensures VersionTags(tags[..i + 1]) ==
      (if IsVersionName(tags[0].name) then [tags[0]] else []) + VersionTags(tags[1..][..i])
  {
    assert tags[..i + 1][1..] == tags[1..][..i];
  }

  /** The two tags the changelog spans. */
  datatype Range = Range(older: Tag, newer: Tag)

  /** `olderTag` and `newerTag`: the newer is the first version tag, the
      older the second when there are two, else the first again; with no
      version tag the source fails (`olderTag` is undefined). */
  function SelectRange(versionTags: seq<Tag>): (r: Option<Range>)
    ensures r.None? <==> versionTags == []
  {
    if |versionTags| == 0 then None
    else Some(Range(if |versionTags| > 1 then versionTags[1] else versionTags[0], versionTags[0]))
  }

  /** The chosen tags in terms of the listing: the newer is the first
      version tag listed, the older the second one listed if there is one,
      else the newer; nothing is chosen when no name is a version. */
  lemma SelectSpec(tags: seq<Tag>)
    ensures SelectRange(VersionTags(tags)).None? <==> forall i :: 0 <= i < |tags| ==> !IsVersionName(tags[i].name)
    ensures SelectRange(VersionTags(tags)).Some? ==>
      var r := SelectRange(VersionTags(tags)).value;
      && (exists i :: 0 <= i < |tags| && tags[i] == r.newer && IsVersionName(tags[i].name) && VersionTags(tags[..i]) == [])
      && (|VersionTags(tags)| > 1 ==>
           exists j :: 0 <= j < |tags| && tags[j] == r.older && IsVersionName(tags[j].name) && |VersionTags(tags[..j])| == 1)
      && (|VersionTags(tags)| == 1 ==> r.older == r.newer)
  {
    var vt := VersionTags(tags);
    VersionTagsMembers(tags);
    assert vt != [] ==> vt[0] in vt;
    assert (forall i :: 0 <= i < |tags| ==> !IsVersionName(tags[i].name)) <==> forall t :: t in tags ==> !IsVersionName(t.name);
    if vt != [] {
      VersionTagAt(tags, 0);
      if |vt| > 1 {
        VersionTagAt(tags, 1);
      }
    }
  }

  /** `${olderTag.name}...${newerTag.name}`. */
  function CompareString(r: Range): string {
    r.older.name + "..." + r.newer.name
  }

  /** A version name has no two dots in a row and does not end with one. */
  lemma NameDots(name: string)
    requires IsVersionName(name)
    ensures NoDoubleDot(name) && SafeEnd(name)
  {
    VersionSound(name, ParseVersion(name).value);
    VersionTextDots(ParseVersion(name).value);
  }

  /** Where a shorter name ends in `a + "..." + x`, a longer one would have
      two dots or a final dot. */
  lemma DotsAfter(a: string, x: string, b: string, y: string)
    requires a + "..." + x == b + "..." + y
    ensures |a| < |b| ==> b[|a|] == '.' && (|a| + 1 < |b| ==> b[|a| + 1] == '.')
  {
    if |a| < |b| {
      var s := a + "..." + x;
      assert s[|a|] == '.' && s[|a| + 1] == '.';
      assert s[|a|] == b[|a|];
      if |a| + 1 < |b| {
        assert s[|a| + 1] == b[|a| + 1];
      }
    }
  }

  lemma NotShorter(a: string, x: string, b: string, y: string)
    requires NoDoubleDot(b) && SafeEnd(b)
    requires a + "..." + x == b + "..." + y
    ensures |a| >= |b|
  {
    DotsAfter(a, x, b, y);
  }

  /** The compare string names its two tags unambiguously: two ranges of
      version tags with the same compare string have the same names. */
  lemma CompareInjective(r: Range, q: Range)
    requires IsVersionName(r.older.name) && IsVersionName(q.older.name)
    requires CompareString(r) == CompareString(q)
    ensures r.older.name == q.older.name && r.newer.name == q.newer.name
  {
    var a, b := r.older.name, q.older.name;
    var x, y := r.newer.name, q.newer.name;
    NameDots(a);
    NameDots(b);
    NotShorter(a, x, b, y);
    NotShorter(b, y, a, x);
    var s := a + "..." + x;
    assert a == s[..|a|] && b == s[..|b|];
    assert x == s[|a| + 3..] && y == s[|b| + 3..];
  }

  /** `getInput("exclude").split(",")`. */
  function ExcludeList(input: string): (r: seq<string>)
    ensures |r| >= 1
    ensures forall i :: 0 <= i < |r| ==> ',' !in r[i]
  {
    Split(input, ',')
  }

  /** The pieces are the input cut at every comma, nothing trimmed: they
      join back into the input, an empty input gives one empty key, and
      comma-free keys are cut out as they were given. */
  lemma ExcludeListSpec(input: string, keys: seq<string>)
    ensures Join(ExcludeList(input), ',') == input
    ensures ExcludeList("") == [""]
    ensures |keys| >= 1 && (forall i :: 0 <= i < |keys| ==> ',' !in keys[i]) ==>
      ExcludeList(Join(keys, ',')) == keys
  {
    JoinSplit(input, ',');
    if |keys| >= 1 && (forall i :: 0 <= i < |keys| ==> ',' !in keys[i]) {
      SplitJoin(keys, ',');
    }
  }

  // ---------------------------------------------------------------------
  // `run`.

  /** What the action ends with: the `changelog` output, or a failure
      reported through `setFailed`. */
  datatype Outcome = Published(changelog: string) | Failed

  /** `run` as written. `listing` is the repository's tags in the order the
      host lists them, of which `listTags` returns the first two;
      `history(ref)` stands for the commit pages `listCommits` returns from
      `ref`. The call passes six arguments to
      `generate`: the older tag's hash lands in `branchRef`, the compare
      string in `tagRef`, and `compareRange` is left undefined. */
  method Run(listing: seq<Tag>, excludeInput: string, owner: string, repo: string,
             history: string -> seq<seq<Commit>>, formatDate: Option<string> -> string)
    returns (out: Outcome)
    ensures VersionTags(ListTags(listing)) == [] ==> out == Failed
    ensures VersionTags(ListTags(listing)) != [] ==>
      var r := SelectRange(VersionTags(ListTags(listing))).value;
      out == Published(Document(history(r.older.sha), ExcludeList(excludeInput), owner, repo,
                                CompareString(r), None, formatDate))
  {
    var exclude := ExcludeList(excludeInput);
    var tags := ListTags(listing);
    var versionTags := VersionTags(tags);
    var range := SelectRange(versionTags);
    if range.None? {
      return Failed;
    }
    var olderTag, newerTag := range.value.older, range.value.newer;
    var compare := olderTag.name + "..." + newerTag.name;
    var changelog := Generate(history(olderTag.sha), exclude, owner, repo, olderTag.sha, compare, None, formatDate);
    return Published(changelog);
  }

  /** `run` with `generate` called as its parameters ask: from the commit
      the workflow runs on (`context.sha`), stopping at the older tag's
      commit, with the compare string as the compare range. */
  method RunCorrected(listing: seq<Tag>, excludeInput: string, owner: string, repo: string, headSha: string,
                      history: string -> seq<seq<Commit>>, formatDate: Option<string> -> string)
    returns (out: Outcome)
    ensures VersionTags(ListTags(listing)) == [] ==> out == Failed
    ensures VersionTags(ListTags(listing)) != [] ==>
      var r := SelectRange(VersionTags(ListTags(listing))).value;
      out == Published(Document(history(headSha), ExcludeList(excludeInput), owner, repo,
                                r.older.sha, Some(CompareString(r)), formatDate))
  {
    var exclude := ExcludeList(excludeInput);
    var tags := ListTags(listing);
    var versionTags := VersionTags(tags);
    var range := SelectRange(versionTags);
    if range.None? {
      return Failed;
    }
    var olderTag, newerTag := range.value.older, range.value.newer;
    var compare := olderTag.name + "..." + newerTag.name;
    var changelog := Generate(history(headSha), exclude, owner, repo, headSha, olderTag.sha, Some(compare), formatDate);
    return Published(changelog);
  }

  // ---------------------------------------------------------------------
  // What the two wirings scan.

  predicate IsHexDigit(c: char) {
    IsDigit(c) || ('a' <= c <= 'f')
  }

  /** A full commit hash: forty lower-case hexadecimal digits. */
  predicate IsSha(s: string) {
    |s| == 40 && forall i :: 0 <= i < |s| ==> IsHexDigit(s[i])
  }

  /** No commit hash equals a compare string: the latter has dots. */
  lemma ShaNotCompare(s: string, r: Range)
    requires IsSha(s)
    ensures s != CompareString(r)
  {
    var c := CompareString(r);
    if |c| == 40 {
      assert c[|r.older.name|] == '.';
    }
  }

  /** As written, the scan never stops: when every hash is a real commit
      hash, all commits from the older tag's commit back are scanned, that
      commit first when the history starts with it; and the compare link
      ends in `undefined`. */
  lemma AsWrittenScansAll(pages: seq<seq<Commit>>, owner: string, repo: string, r: Range)
    requires forall c :: c in Flatten(pages) ==> IsSha(c.sha)
    ensures Scanned(pages, CompareString(r)) == Flatten(pages)
    ensures Flatten(pages) != [] && Flatten(pages)[0].sha == r.older.sha ==>
      Scanned(pages, CompareString(r))[0].sha == r.older.sha
    ensures CompareUrl(owner, repo, None) == RepoUrl(owner, repo) + "/compare/undefined"
  {
    var xs := Flatten(pages);
    forall i | 0 <= i < |xs| ensures xs[i].sha != CompareString(r) {
      assert xs[i] in xs;
      ShaNotCompare(xs[i].sha, r);
    }
    assert xs[..|xs|] == xs;
    TakeUntilStops(xs, xs, CompareString(r));
  }

  /** Corrected, the scan takes exactly the commits listed before the older
      tag's commit, and the compare link spans the two tags. */
  lemma CorrectedScansRelease(pages: seq<seq<Commit>>, owner: string, repo: string, r: Range, k: nat)
    requires k < |Flatten(pages)| && Flatten(pages)[k].sha == r.older.sha
    requires forall i :: 0 <= i < k ==> Flatten(pages)[i].sha != r.older.sha
    ensures Scanned(pages, r.older.sha) == Flatten(pages)[..k]
    ensures CompareUrl(owner, repo, Some(CompareString(r))) ==
      RepoUrl(owner, repo) + "/compare/" + r.older.name + "..." + r.newer.name
  {
    TakeUntilStops(Flatten(pages), Flatten(pages)[..k], r.older.sha);
  }
}
