/**
 * The two version patterns of modules2tuple.go, written as parsers into a
 * structured value together with the printer that gives the text back:
 *
 *   pseudo-version  \Av\d+\.\d+\.\d+-(?:\d+\.)?\d{14}-([0-9a-f]{7})[0-9a-f]+\z
 *   semver          \A(v\d+\.\d+\.\d+(?:-[0-9A-Za-z]+[0-9A-Za-z\.-]+)?)(?:\+incompatible)?\z
 *
 * Each parser is sound (a parsed value prints back to the input) and complete
 * (every well-formed value is parsed back from its text), so it accepts
 * exactly the language of its anchored pattern.
 */
module Versions {
  import opened Wrappers
  import opened GoStrings

  // ---------------------------------------------------------------------------
  // The release triple "v<major>.<minor>.<patch>" that both patterns start with
  // ---------------------------------------------------------------------------

  datatype Release = Release(major: string, minor: string, patch: string)

  /** `\d+` */
  predicate Number(s: string) { |s| > 0 && All(IsDigit, s) }

  predicate ValidRelease(r: Release) {
    Number(r.major) && Number(r.minor) && Number(r.patch)
  }

  function ReleaseText(r: Release): string {
    "v" + r.major + "." + r.minor + "." + r.patch
  }

  /** Reads a maximal `\d+` off the front of `s`, returning the rest of `s`. */
  function ParseNumber(s: string): (r: Option<(string, string)>)
    ensures r.Some? ==> Number(r.value.0) && r.value.0 + r.value.1 == s
    ensures r.Some? ==> r.value.1 == [] || !IsDigit(r.value.1[0])
  {
    var n := LeadingRun(IsDigit, s);
    if n == 0 then None
    else
      assert s == s[..n] + s[n..];
      Some((s[..n], s[n..]))
  }

  lemma ParseNumberOf(d: string, rest: string)
    requires Number(d)
    requires rest == [] || !IsDigit(rest[0])
    ensures ParseNumber(d + rest) == Some((d, rest))
  {
    LeadingRunConcat(IsDigit, d, rest);
    assert (d + rest)[..|d|] == d;
    assert (d + rest)[|d|..] == rest;
  }

  /** Reads `c` off the front of `s`. */
  function Expect(c: char, s: string): (r: Option<string>)
    ensures r.Some? ==> [c] + r.value == s
  {
    if |s| > 0 && s[0] == c then
      assert s == [c] + s[1..];
      Some(s[1..])
    else None
  }

  lemma ExpectOf(c: char, rest: string)
    ensures Expect(c, [c] + rest) == Some(rest)
  {
    assert ([c] + rest)[1..] == rest;
  }

  lemma ReleaseTextOf(s: string, t1: string, major: string, r1: string, t2: string, minor: string,
                      r2: string, t3: string, patch: string, rest: string)
    requires s == ['v'] + t1 && t1 == major + r1 && r1 == ['.'] + t2
    requires t2 == minor + r2 && r2 == ['.'] + t3 && t3 == patch + rest
    ensures s == ReleaseText(Release(major, minor, patch)) + rest
  {
    calc {
      s;
      ['v'] + (major + (['.'] + (minor + (['.'] + (patch + rest)))));
      "v" + major + "." + minor + "." + patch + rest;
    }
  }

  /** Reads a release triple off the front of `s`, returning the rest of `s`. */
  function ParseRelease(s: string): (r: Option<(Release, string)>)
    ensures r.Some? ==> ValidRelease(r.value.0) && ReleaseText(r.value.0) + r.value.1 == s
    ensures r.Some? ==> r.value.1 == [] || !IsDigit(r.value.1[0])
  {
    match Expect('v', s)
    case None => None
    case Some(t1) =>
      match ParseNumber(t1)
      case None => None
      case Some((major, r1)) =>
        match Expect('.', r1)
        case None => None
        case Some(t2) =>
          match ParseNumber(t2)
          case None => None
          case Some((minor, r2)) =>
            match Expect('.', r2)
            case None => None
            case Some(t3) =>
              match ParseNumber(t3)
              case None => None
              case Some((patch, rest)) =>
                ReleaseTextOf(s, t1, major, r1, t2, minor, r2, t3, patch, rest);
                Some((Release(major, minor, patch), rest))
  }

  lemma ReleaseTextNested(r: Release, rest: string)
    ensures ReleaseText(r) + rest == ['v'] + (r.major + (['.'] + (r.minor + (['.'] + (r.patch + rest)))))
  {
  }

  lemma ParseReleaseText(r: Release, rest: string)
    requires ValidRelease(r)
    requires rest == [] || !IsDigit(rest[0])
    ensures ParseRelease(ReleaseText(r) + rest) == Some((r, rest))
  {
    var t3 := r.patch + rest;
    var t2 := r.minor + (['.'] + t3);
    var t1 := r.major + (['.'] + t2);
    ReleaseTextNested(r, rest);
    ExpectOf('v', t1);
    ParseNumberOf(r.major, ['.'] + t2);
    ExpectOf('.', t2);
    ParseNumberOf(r.minor, ['.'] + t3);
    ExpectOf('.', t3);
    ParseNumberOf(r.patch, rest);
  }

  // ---------------------------------------------------------------------------
  // Semantic versions: versionRx
  // ---------------------------------------------------------------------------

  const Incompatible := "+incompatible"

  /** `[0-9A-Za-z\.-]` */
  predicate IsPrereleaseChar(c: char) { IsAlnum(c) || c == '.' || c == '-' }

  /** `[0-9A-Za-z]+[0-9A-Za-z\.-]+`: an alphanumeric, then at least one more character of the wider class. */
  predicate ValidPrerelease(p: string) {
    |p| >= 2 && IsAlnum(p[0]) && All(IsPrereleaseChar, p)
  }

  /** A prerelease of "" stands for the absent `(?:-...)?` group. */
  datatype Semver = Semver(release: Release, prerelease: string, incompatible: bool)

  predicate ValidSemver(v: Semver) {
    ValidRelease(v.release) && (v.prerelease == [] || ValidPrerelease(v.prerelease))
  }

  function PrereleaseText(pre: string): string {
    if pre == [] then "" else ['-'] + pre
  }

  function SuffixText(incompatible: bool): string {
    if incompatible then Incompatible else ""
  }

  /** Capture group 1 of versionRx: everything but the "+incompatible" suffix. */
  function SemverTag(v: Semver): string {
    ReleaseText(v.release) + PrereleaseText(v.prerelease)
  }

  function SemverText(v: Semver): string {
    SemverTag(v) + SuffixText(v.incompatible)
  }

  /** Reads the optional `-<prerelease>` group, which must be all of `core`. */
  function ParsePrerelease(core: string): (r: Option<string>)
    ensures r.Some? ==> (r.value == [] || ValidPrerelease(r.value)) && PrereleaseText(r.value) == core
  {
    if core == [] then Some([])
    else if core[0] == '-' && ValidPrerelease(core[1..]) then
      assert core == ['-'] + core[1..];
      Some(core[1..])
    else None
  }

  /** Splits the optional "+incompatible" group off the end of `rest`. */
  function ParseSuffix(rest: string): (r: (string, bool))
    ensures r.0 + SuffixText(r.1) == rest
    ensures r.1 == HasSuffix(rest, Incompatible)
  {
    if HasSuffix(rest, Incompatible) then
      assert rest == rest[..|rest| - |Incompatible|] + Incompatible;
      (rest[..|rest| - |Incompatible|], true)
    else (rest, false)
  }

  lemma SemverTextOf(s: string, rel: Release, rest: string, core: string, pre: string, inc: bool)
    requires rest == core + SuffixText(inc) && core == PrereleaseText(pre)
    ensures s == ReleaseText(rel) + rest <==> SemverText(Semver(rel, pre, inc)) == s
  {
  }

  function ParseSemver(s: string): (r: Option<Semver>)
    ensures r.Some? ==> ValidSemver(r.value) && SemverText(r.value) == s
  {
    match ParseRelease(s)
    case None => None
    case Some((rel, rest)) =>
      var (core, inc) := ParseSuffix(rest);
      match ParsePrerelease(core)
      case None => None
      case Some(pre) =>
        SemverTextOf(s, rel, rest, core, pre, inc);
        Some(Semver(rel, pre, inc))
  }

  /** The text of a prerelease group never ends in "+incompatible": it has no '+'. */
  lemma PrereleaseNotIncompatible(pre: string)
    requires pre == [] || ValidPrerelease(pre)
    ensures !HasSuffix(PrereleaseText(pre), Incompatible)
  {
    var t := PrereleaseText(pre);
    if |t| >= |Incompatible| {
      var k := |t| - |Incompatible|;
      assert t[k..][0] == t[k];
      assert t[k] == '-' || t[k] == pre[k - 1];
    }
  }

  lemma ParsePrereleaseText(pre: string)
    requires pre == [] || ValidPrerelease(pre)
    ensures ParsePrerelease(PrereleaseText(pre)) == Some(pre)
  {
    if pre != [] {
      assert PrereleaseText(pre)[1..] == pre;
    }
  }

  lemma ParseSuffixText(core: string, inc: bool)
    requires !HasSuffix(core, Incompatible)
    ensures ParseSuffix(core + SuffixText(inc)) == (core, inc)
  {
    var rest := core + SuffixText(inc);
    if inc {
      assert rest[|rest| - |Incompatible|..] == Incompatible;
      assert rest[..|rest| - |Incompatible|] == core;
    } else {
      assert rest == core;
    }
  }

  lemma ParseSemverText(v: Semver)
    requires ValidSemver(v)
    ensures ParseSemver(SemverText(v)) == Some(v)
  {
    var core := PrereleaseText(v.prerelease);
    var rest := core + SuffixText(v.incompatible);
    SemverTextOf(SemverText(v), v.release, rest, core, v.prerelease, v.incompatible);
    ParseReleaseText(v.release, rest);
    PrereleaseNotIncompatible(v.prerelease);
    ParseSuffixText(core, v.incompatible);
    ParsePrereleaseText(v.prerelease);
  }

  // ---------------------------------------------------------------------------
  // Pseudo-versions: tagRx
  // ---------------------------------------------------------------------------

  /** A build of "" stands for the absent `(?:\d+\.)?` group. */
  datatype Pseudo = Pseudo(release: Release, build: string, timestamp: string, hash: string)

  /** `[0-9a-f]{7}[0-9a-f]+` */
  predicate IsHash(h: string) { |h| >= 8 && All(IsLowerHex, h) }

  predicate ValidPseudo(p: Pseudo) {
    && ValidRelease(p.release)
    && (p.build == [] || Number(p.build))
    && |p.timestamp| == 14 && Number(p.timestamp)
    && IsHash(p.hash)
  }

  function BuildText(build: string): string {
    if build == [] then "" else build + ['.']
  }

  function PseudoText(p: Pseudo): string {
    ReleaseText(p.release) + ['-'] + BuildText(p.build) + p.timestamp + ['-'] + p.hash
  }

  /** Capture group 1 of tagRx: the first seven characters of the commit hash. */
  function PseudoTag(p: Pseudo): (t: string)
    requires IsHash(p.hash)
    ensures |t| == 7 && All(IsLowerHex, t)
  {
    p.hash[..7]
  }

  /** The part of a pseudo-version after the release and its '-': `(?:\d+\.)?\d{14}-<hash>`. */
  function StampText(build: string, timestamp: string, hash: string): string {
    BuildText(build) + timestamp + ['-'] + hash
  }

  predicate ValidStamp(build: string, timestamp: string, hash: string) {
    (build == [] || Number(build)) && |timestamp| == 14 && Number(timestamp) && IsHash(hash)
  }

  lemma StampTextOf(t: string, d: string, t1: string, t2: string, ts: string, u: string, h: string)
    requires t == d + t1 && d != [] && t1 == ['.'] + t2 && t2 == ts + u && u == ['-'] + h
    ensures StampText(d, ts, h) == t
  {
  }

  /** Reads the timestamp and hash that follow a "<build>." group. */
  function ParseStampAfterBuild(d: string, t2: string): (r: Option<(string, string)>)
    requires Number(d)
    ensures r.Some? ==> ValidStamp(d, r.value.0, r.value.1)
    ensures r.Some? ==> StampText(d, r.value.0, r.value.1) == d + (['.'] + t2)
  {
    match ParseNumber(t2)
    case None => None
    case Some((ts, u)) =>
      match Expect('-', u)
      case None => None
      case Some(h) =>
        if |ts| == 14 && IsHash(h) then
          StampTextOf(d + (['.'] + t2), d, ['.'] + t2, t2, ts, u, h);
          Some((ts, h))
        else None
  }

  /** Reads `(?:\d+\.)?\d{14}-([0-9a-f]{7})[0-9a-f]+` to the end of `t`. */
  function ParseStamp(t: string): (r: Option<(string, string, string)>)
    ensures r.Some? ==> ValidStamp(r.value.0, r.value.1, r.value.2)
    ensures r.Some? ==> StampText(r.value.0, r.value.1, r.value.2) == t
  {
    match ParseNumber(t)
    case None => None
    case Some((d, t1)) =>
      match Expect('.', t1)
      case Some(t2) =>
        (match ParseStampAfterBuild(d, t2)
         case None => None
         case Some((ts, h)) => Some((d, ts, h)))
      case None =>
        match Expect('-', t1)
        case None => None
        case Some(h) =>
          if |d| == 14 && IsHash(h) then
            assert t == d + (['-'] + h);
            Some(([], d, h))
          else None
  }

  /** Without its release and '-', a pseudo-version is a well-formed prerelease starting with a digit. */
  lemma StampIsPrerelease(build: string, ts: string, h: string)
    requires ValidStamp(build, ts, h)
    ensures ValidPrerelease(StampText(build, ts, h)) && IsDigit(StampText(build, ts, h)[0])
  {
    var t := StampText(build, ts, h);
    if build == [] {
      assert t == ts + (['-'] + h);
    } else {
      assert t == build + (['.'] + (ts + (['-'] + h)));
    }
  }

  lemma PseudoTextOf(s: string, rel: Release, rest: string, t: string, p: Pseudo)
    requires rest == ['-'] + t && p.release == rel && StampText(p.build, p.timestamp, p.hash) == t
    ensures s == ReleaseText(rel) + rest <==> PseudoText(p) == s
  {
  }

  function ParsePseudo(s: string): (r: Option<Pseudo>)
    ensures r.Some? ==> ValidPseudo(r.value) && PseudoText(r.value) == s
  {
    match ParseRelease(s)
    case None => None
    case Some((rel, rest)) =>
      match Expect('-', rest)
      case None => None
      case Some(t) =>
        match ParseStamp(t)
        case None => None
        case Some((build, ts, h)) =>
          var p := Pseudo(rel, build, ts, h);
          PseudoTextOf(s, rel, rest, t, p);
          Some(p)
  }

  lemma ParseStampText(build: string, ts: string, h: string)
    requires ValidStamp(build, ts, h)
    ensures ParseStamp(StampText(build, ts, h)) == Some((build, ts, h))
  {
    var u := ['-'] + h;
    var tail := ts + u;
    ExpectOf('-', h);
    if build == [] {
      assert StampText(build, ts, h) == tail;
      ParseNumberOf(ts, u);
    } else {
      assert StampText(build, ts, h) == build + (['.'] + tail);
      ParseNumberOf(build, ['.'] + tail);
      ExpectOf('.', tail);
      ParseNumberOf(ts, u);
    }
  }

  lemma ParsePseudoText(p: Pseudo)
    requires ValidPseudo(p)
    ensures ParsePseudo(PseudoText(p)) == Some(p)
  {
    var s := PseudoText(p);
    var t := StampText(p.build, p.timestamp, p.hash);
    var rest := ['-'] + t;
    PseudoTextOf(s, p.release, rest, t, p);
    ParseReleaseText(p.release, rest);
    ExpectOf('-', t);
    ParseStampText(p.build, p.timestamp, p.hash);
    ParsePseudoSteps(s, p.release, rest, t, (p.build, p.timestamp, p.hash), p);
  }

  lemma ParsePseudoSteps(s: string, rel: Release, rest: string, t: string, stamp: (string, string, string), p: Pseudo)
    requires ParseRelease(s) == Some((rel, rest)) && Expect('-', rest) == Some(t) && ParseStamp(t) == Some(stamp)
    requires p == Pseudo(rel, stamp.0, stamp.1, stamp.2)
    ensures ParsePseudo(s) == Some(p)
  {
  }

  lemma PseudoTextEndsWithHash(p: Pseudo)
    ensures PseudoText(p) == (ReleaseText(p.release) + ['-'] + BuildText(p.build) + p.timestamp + ['-']) + p.hash
  {
  }

  /** After its release triple, a pseudo-version goes on with '-' and a digit. */
  lemma PseudoNeedsDashDigit(s: string, rel: Release, rest: string)
    requires ParseRelease(s) == Some((rel, rest))
    requires !(|rest| >= 2 && rest[0] == '-' && IsDigit(rest[1]))
    ensures ParsePseudo(s) == None
  {
  }

  /** A pseudo-version ends in hexadecimal digits, so no text ending in "+incompatible" is one. */
  lemma PseudoNotIncompatible(s: string)
    requires HasSuffix(s, Incompatible)
    ensures ParsePseudo(s) == None
  {
    if ParsePseudo(s).Some? {
      PseudoTextNotIncompatible(ParsePseudo(s).value);
    }
  }

  /** The last but one character of a pseudo-version is a hex digit, where "+incompatible" has an 'l'. */
  lemma PseudoTextNotIncompatible(p: Pseudo)
    requires ValidPseudo(p)
    ensures !HasSuffix(PseudoText(p), Incompatible)
  {
    var s := PseudoText(p);
    var h := p.hash;
    var x := ReleaseText(p.release) + ['-'] + BuildText(p.build) + p.timestamp + ['-'];
    PseudoTextEndsWithHash(p);
    assert s == x + h;
    assert s[|s| - 2] == h[|h| - 2];
    assert IsLowerHex(h[|h| - 2]);
    assert |s| >= |Incompatible| ==> s[|s| - |Incompatible|..][|Incompatible| - 2] == s[|s| - 2];
  }

  // ---------------------------------------------------------------------------
  // ParsePackage's version switch (modules2tuple.go:91-100)
  // ---------------------------------------------------------------------------

  /** A tag as the converter produces it: an abbreviated commit hash, or a semver without the suffix. */
  predicate IsTag(t: string) {
    (|t| == 7 && All(IsLowerHex, t)) ||
    (ParseSemver(t).Some? && !ParseSemver(t).value.incompatible)
  }

  /** The pseudo-version pattern is tried first; None stands for "unexpected version string". */
  function VersionTag(version: string): (r: Option<string>)
    ensures r.Some? ==> IsTag(r.value) && |r.value| > 0
  {
    match ParsePseudo(version)
    case Some(p) => Some(PseudoTag(p))
    case None =>
      match ParseSemver(version)
      case Some(v) =>
        ParseSemverText(v.(incompatible := false));
        Some(SemverTag(v))
      case None => None
  }

  /** The pseudo-version tag is the first seven hash characters, however long the hash is. */
  lemma PseudoVersionTag(p: Pseudo, version: string)
    requires ValidPseudo(p) && PseudoText(p) == version
    ensures VersionTag(version) == Some(p.hash[..7])
    ensures |p.hash[..7]| == 7 && All(IsLowerHex, p.hash[..7])
  {
    ParsePseudoText(p);
  }

  /**
   * versionRx is consulted only when tagRx fails: a semantic version whose
   * text is no pseudo-version gets its text minus "+incompatible" as the tag.
   */
  lemma SemverVersionTag(v: Semver, version: string)
    requires ValidSemver(v) && SemverText(v) == version
    requires forall p :: ValidPseudo(p) ==> PseudoText(p) != version
    ensures VersionTag(version) == Some(SemverTag(v))
  {
    ParseSemverText(v);
    assert ParsePseudo(version).None?;
  }

  /**
   * The syntactic cases where tagRx cannot match a semantic version: it has
   * the suffix, no prerelease, or a prerelease that does not start with a digit.
   */
  lemma SemverNoStampTag(v: Semver, version: string)
    requires ValidSemver(v) && SemverText(v) == version
    requires v.incompatible || v.prerelease == [] || !IsDigit(v.prerelease[0])
    ensures VersionTag(version) == Some(SemverTag(v))
  {
    var s := SemverText(v);
    if v.incompatible {
      HasSuffixConcat(SemverTag(v), Incompatible);
      PseudoNotIncompatible(s);
    } else {
      var core := PrereleaseText(v.prerelease);
      SemverTextOf(s, v.release, core, core, v.prerelease, false);
      ParseReleaseText(v.release, core);
      PseudoNeedsDashDigit(s, v.release, core);
    }
    forall p | ValidPseudo(p) ensures PseudoText(p) != version {
      ParsePseudoText(p);
    }
    SemverVersionTag(v, version);
  }

  /** A pseudo-version with "+incompatible" fails tagRx and is read by versionRx: its tag is the whole pseudo-version. */
  lemma IncompatiblePseudoVersionTag(p: Pseudo)
    requires ValidPseudo(p)
    ensures VersionTag(PseudoText(p) + Incompatible) == Some(PseudoText(p))
  {
    var pre := StampText(p.build, p.timestamp, p.hash);
    var rest := ['-'] + pre;
    var tag := ReleaseText(p.release) + rest;
    PseudoTextOf(tag, p.release, rest, pre, p);
    StampIsPrerelease(p.build, p.timestamp, p.hash);
    var v := Semver(p.release, pre, true);
    SemverTextOf(tag + Incompatible, p.release, rest + Incompatible, rest, pre, true);
    SemverNoStampTag(v, tag + Incompatible);
  }

  /** A version is an error exactly when it is the text of neither a pseudo-version nor a semantic version. */
  lemma VersionTagNone(version: string)
    ensures VersionTag(version) == None <==>
      (forall p :: ValidPseudo(p) ==> PseudoText(p) != version) &&
      (forall v :: ValidSemver(v) ==> SemverText(v) != version)
  {
    if VersionTag(version) == None {
      forall p | ValidPseudo(p) ensures PseudoText(p) != version {
        ParsePseudoText(p);
      }
      forall v | ValidSemver(v) ensures SemverText(v) != version {
        ParseSemverText(v);
      }
    }
  }

  // The examples given for each pattern in the source comments.

  lemma PseudoVersionExample()
    ensures VersionTag("v0.0.0-20181001143604-e0a95dfd547c") == Some("e0a95df")
  {
    var p := Pseudo(Release("0", "0", "0"), "", "20181001143604", "e0a95dfd547c");
    PseudoExampleValid(p);
    PseudoExampleText(p);
    PseudoVersionTag(p, "v0.0.0-20181001143604-e0a95dfd547c");
  }

  lemma PseudoExampleValid(p: Pseudo)
    requires p == Pseudo(Release("0", "0", "0"), "", "20181001143604", "e0a95dfd547c")
    ensures ValidPseudo(p) && p.hash[..7] == "e0a95df"
  {
  }

  lemma PseudoExampleText(p: Pseudo)
    requires p == Pseudo(Release("0", "0", "0"), "", "20181001143604", "e0a95dfd547c")
    ensures PseudoText(p) == "v0.0.0-20181001143604-e0a95dfd547c"
  {
  }

  lemma IncompatibleExample()
    ensures VersionTag("v1.2.3+incompatible") == Some("v1.2.3")
  {
    var v := Semver(Release("1", "2", "3"), "", true);
    assert ValidSemver(v);
    assert SemverTag(v) == "v1.2.3";
    assert SemverText(v) == "v1.2.3+incompatible";
    SemverNoStampTag(v, "v1.2.3+incompatible");
  }

  lemma PrereleaseExample()
    ensures VersionTag("v1.2.3-rc.1+incompatible") == Some("v1.2.3-rc.1")
  {
    var v := Semver(Release("1", "2", "3"), "rc.1", true);
    assert ValidSemver(v);
    assert SemverTag(v) == "v1.2.3-rc.1";
    assert SemverText(v) == "v1.2.3-rc.1+incompatible";
    SemverNoStampTag(v, "v1.2.3-rc.1+incompatible");
  }

  /** A prerelease that starts with a digit but is no timestamp and hash: tagRx fails, versionRx takes the whole text. */
  lemma DigitPrereleaseExample()
    ensures VersionTag("v1.2.3-2019.1") == Some("v1.2.3-2019.1")
  {
    var version := "v1.2.3-2019.1";
    var v := Semver(Release("1", "2", "3"), "2019.1", false);
    DigitPrereleaseSemver(v, version);
    DigitPrereleaseNotPseudo(version);
    forall p | ValidPseudo(p) ensures PseudoText(p) != version {
      ParsePseudoText(p);
    }
    SemverVersionTag(v, version);
  }

  lemma DigitPrereleaseSemver(v: Semver, version: string)
    requires v == Semver(Release("1", "2", "3"), "2019.1", false) && version == "v1.2.3-2019.1"
    ensures ValidSemver(v) && SemverText(v) == version && SemverTag(v) == version
  {
  }

  lemma DigitPrereleaseNotPseudo(version: string)
    requires version == "v1.2.3-2019.1"
    ensures ParsePseudo(version) == None
  {
    var rel, rest := Release("1", "2", "3"), "-2019.1";
    DigitPrereleaseRelease(version, rel, rest);
    NotPseudoExample(rest);
  }

  lemma DigitPrereleaseRelease(version: string, rel: Release, rest: string)
    requires version == "v1.2.3-2019.1" && rel == Release("1", "2", "3") && rest == "-2019.1"
    ensures ParseRelease(version) == Some((rel, rest))
  {
    assert ReleaseText(rel) + rest == version;
    ParseReleaseText(rel, rest);
  }

  lemma NotPseudoExample(rest: string)
    requires rest == "-2019.1"
    ensures Expect('-', rest) == Some("2019.1") && ParseStamp("2019.1") == None
  {
    ParseNumberOf("2019", ".1");
    ParseNumberOf("1", "");
  }
}
