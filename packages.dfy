/**
 * One line of vendor/modules.txt (without its "# " marker) turned into a
 * GH_TUPLE package: ParsePackage, the name resolver with its table of
 * well-known mirrors, and the derived values Parsed, Group, String and Less
 * (modules2tuple.go:15-180).
 */
module Packages {
  import opened Wrappers
  import opened GoStrings
  import opened Versions
  import opened Names

  /** Package: the full import path, the GitHub account and project, and the tag or commit id. */
  datatype Package = Package(name: string, account: string, project: string, tag: string)

  /** The four errors ParsePackage reports, with the string its message quotes. */
  datatype ParseError =
    | ReplaceArity(spec: string)
    | FieldCount(spec: string)
    | GithubName(name: string)
    | BadVersion(version: string)

  datatype Result<T> = Ok(value: T) | Err(error: ParseError)

  const ReplaceOp := " => "
  const GithubPrefix := "github.com"
  const GopkgInHost := "gopkg.in"
  const GolangOrgHost := "golang.org"

  /** wellKnownPackages: import paths whose GitHub mirror cannot be derived from the path. */
  const WellKnownPackages: map<string, Repo> := map[
    "cloud.google.com/go" := Repo("googleapis", "google-cloud-go"),
    "contrib.go.opencensus.io/exporter/ocagent" := Repo("census-ecosystem", "opencensus-go-exporter-ocagent"),
    "docker.io/go-docker" := Repo("docker", "go-docker"),
    "git.apache.org/thrift.git" := Repo("apache", "thrift"),
    "go.opencensus.io" := Repo("census-instrumentation", "opencensus-go"),
    "go.uber.org/atomic" := Repo("uber-go", "atomic"),
    "google.golang.org/api" := Repo("googleapis", "google-api-go-client"),
    "google.golang.org/appengine" := Repo("golang", "appengine"),
    "google.golang.org/genproto" := Repo("google", "go-genproto"),
    "google.golang.org/grpc" := Repo("grpc", "grpc-go"),
    "gopkg.in/fsnotify.v1" := Repo("fsnotify", "fsnotify")
  ]

  // ---------------------------------------------------------------------------
  // Name resolution (modules2tuple.go:71-88)
  // ---------------------------------------------------------------------------

  /**
   * The first rule that applies decides: the table, then the three host
   * prefixes. Only a github.com name with fewer than three '/'-separated
   * segments is an error; any other name that no rule recognises resolves to
   * NoRepo and the package stays unparsed.
   */
  function ResolveName(name: string): (r: Result<Repo>)
    ensures r.Err? ==> r.error == GithubName(name) && name !in WellKnownPackages && HasPrefix(name, GithubPrefix)
    ensures r.Ok? && r.value != NoRepo ==>
      name in WellKnownPackages || HasPrefix(name, GithubPrefix) ||
      HasPrefix(name, GopkgInPrefix) || HasPrefix(name, GolangOrgPrefix)
  {
    if name in WellKnownPackages then Ok(WellKnownPackages[name])
    else if HasPrefix(name, GithubPrefix) then
      var parts := Split(name, "/");
      if |parts| < 3 then Err(GithubName(name)) else Ok(Repo(parts[1], parts[2]))
    else if HasPrefix(name, GopkgInHost) then
      var repo := GopkgIn(name);
      assert repo != NoRepo ==> name[..|GopkgInPrefix|] == GopkgInPrefix;
      Ok(repo)
    else if HasPrefix(name, GolangOrgHost) then
      var repo := GolangOrg(name);
      assert repo != NoRepo ==> name[..|GolangOrgPrefix|] == GolangOrgPrefix;
      Ok(repo)
    else Ok(NoRepo)
  }

  /** No well-known name is a github.com name, so github.com names always go through the segment rule. */
  lemma GithubNotWellKnown(name: string)
    requires HasPrefix(name, GithubPrefix)
    ensures name !in WellKnownPackages
  {
    assert name[3] == name[..|GithubPrefix|][3] == 'h';
    forall k | k in WellKnownPackages ensures |k| > 3 && k[3] != 'h' {}
  }

  /** A name in the table resolves to its entry, whatever host rule it would otherwise fall under. */
  lemma WellKnownResolved(name: string)
    requires name in WellKnownPackages
    ensures ResolveName(name) == Ok(WellKnownPackages[name])
  {
  }

  /** A gopkg.in name outside the table is resolved by the gopkg.in rule, unresolvable names included. */
  lemma GopkgInResolved(name: string)
    requires name !in WellKnownPackages && HasPrefix(name, GopkgInHost)
    ensures ResolveName(name) == Ok(GopkgIn(name))
  {
    assert name[1] == name[..|GopkgInHost|][1] == 'o';
    NotPrefixAt(name, GithubPrefix, 1);
  }

  /** A golang.org name outside the table is resolved by the golang.org rule, unresolvable names included. */
  lemma GolangOrgResolved(name: string)
    requires name !in WellKnownPackages && HasPrefix(name, GolangOrgHost)
    ensures ResolveName(name) == Ok(GolangOrg(name))
  {
    assert name[1] == name[..|GolangOrgHost|][1] == 'o';
    assert name[2] == name[..|GolangOrgHost|][2] == 'l';
    NotPrefixAt(name, GithubPrefix, 1);
    NotPrefixAt(name, GopkgInHost, 2);
  }

  /** A name that differs from a prefix at position k does not start with it. */
  lemma NotPrefixAt(name: string, prefix: string, k: nat)
    requires k < |prefix| && k < |name| && name[k] != prefix[k]
    ensures !HasPrefix(name, prefix)
  {
    if |prefix| <= |name| {
      assert name[..|prefix|][k] == name[k];
    }
  }

  /** Any other name is no error: it resolves to NoRepo and the package stays unparsed. */
  lemma OtherResolved(name: string)
    requires name !in WellKnownPackages
    requires !HasPrefix(name, GithubPrefix) && !HasPrefix(name, GopkgInHost) && !HasPrefix(name, GolangOrgHost)
    ensures ResolveName(name) == Ok(NoRepo)
  {
  }

  /** The text of a '/'-joined path starts with its first segment. */
  lemma JoinPrefix(parts: seq<string>, prefix: string)
    requires |parts| >= 1 && HasPrefix(parts[0], prefix)
    ensures HasPrefix(Join(parts, "/"), prefix)
  {
    if |parts| > 1 {
      HasPrefixConcat(parts[0], "/" + Join(parts[1..], "/"), prefix);
      assert Join(parts, "/") == parts[0] + ("/" + Join(parts[1..], "/"));
    }
  }

  /**
   * github.com names, written as their '/'-separated segments: segments 1
   * and 2 are the account and project, and further segments are ignored.
   */
  lemma GithubResolved(parts: seq<string>)
    requires |parts| >= 3 && HasPrefix(parts[0], GithubPrefix)
    requires forall k :: 0 <= k < |parts| ==> !Contains(parts[k], "/")
    ensures ResolveName(Join(parts, "/")) == Ok(Repo(parts[1], parts[2]))
  {
    JoinPrefix(parts, GithubPrefix);
    GithubNotWellKnown(Join(parts, "/"));
    SplitJoin(parts, "/");
  }

  /** A github.com name with fewer than three segments is the one error the resolver reports. */
  lemma GithubTooShort(parts: seq<string>)
    requires 1 <= |parts| < 3 && HasPrefix(parts[0], GithubPrefix)
    requires forall k :: 0 <= k < |parts| ==> !Contains(parts[k], "/")
    ensures ResolveName(Join(parts, "/")) == Err(GithubName(Join(parts, "/")))
  {
    JoinPrefix(parts, GithubPrefix);
    GithubNotWellKnown(Join(parts, "/"));
    SplitJoin(parts, "/");
  }

  /** The table overrides the host rules: gopkg.in/fsnotify.v1 would otherwise become go-fsnotify/fsnotify. */
  lemma WellKnownOverride()
    ensures ResolveName("gopkg.in/fsnotify.v1") == Ok(Repo("fsnotify", "fsnotify"))
    ensures GopkgIn("gopkg.in/fsnotify.v1") == Repo("go-fsnotify", "fsnotify")
  {
    assert Token("fsnotify") && ShortTail(".v1");
    assert GopkgInPrefix + ("fsnotify" + ".v1") == "gopkg.in/fsnotify.v1";
    GopkgInShortText("fsnotify", ".v1");
  }

  // ---------------------------------------------------------------------------
  // strings.Split on " => "
  // ---------------------------------------------------------------------------

  /**
   * A piece free of " => " that does not end in " =>" is split off at the
   * separator that follows it: no occurrence can start inside it.
   */
  lemma SplitReplaceCons(a: string, rest: string)
    requires !Contains(a, ReplaceOp) && !HasSuffix(a, " =>")
    ensures Split(a + ReplaceOp + rest, ReplaceOp) == [a] + Split(rest, ReplaceOp)
  {
    var s := a + ReplaceOp + rest;
    var n := |a|;
    assert OccursAt(s, ReplaceOp, n) by { assert s[n..n + 4] == ReplaceOp; }
    forall j: nat | j < n ensures !OccursAt(s, ReplaceOp, j) {
      if j + 4 <= n {
        assert s[j..j + 4] == a[j..j + 4];
        assert !OccursAt(a, ReplaceOp, j);
      } else {
        NoStraddle(a, rest, j);
      }
    }
    assert Index(s, ReplaceOp) == Some(n);
    assert s[..n] == a;
    assert s[n + 4..] == rest;
  }

  /** An occurrence of " => " that starts inside `a` and runs into the separator needs `a` to end in " =>". */
  lemma NoStraddle(a: string, rest: string, j: nat)
    requires !HasSuffix(a, " =>") && j < |a| < j + 4
    ensures !OccursAt(a + ReplaceOp + rest, ReplaceOp, j)
  {
    var s := a + ReplaceOp + rest;
    var n := |a|;
    OccursAtChars(s, ReplaceOp, j);
    if j + 3 == n {
      assert s[j..j + 3] == a[n - 3..];
      assert ReplaceOp[..3] == " =>";
    } else if j + 2 == n {
      assert s[j + 2] == ' ' != ReplaceOp[2];
    } else {
      assert s[j + 1] == ' ' != ReplaceOp[1];
    }
  }

  lemma SplitReplacePair(a: string, b: string)
    requires !Contains(a, ReplaceOp) && !HasSuffix(a, " =>") && !Contains(b, ReplaceOp)
    ensures Split(a + ReplaceOp + b, ReplaceOp) == [a, b]
  {
    SplitReplaceCons(a, b);
  }

  // ---------------------------------------------------------------------------
  // ParsePackage (modules2tuple.go:33-103)
  // ---------------------------------------------------------------------------

  /**
   * A replace spec "<old> => <new>" is parsed side by side and keeps the old
   * name with the new account, project and tag; any other spec must be
   * exactly a name and a version separated by white space. Name resolution
   * happens before the version is read, so a bad github.com name wins over a
   * bad version.
   */
  function ParsePackage(spec: string): (r: Result<Package>)
    decreases |spec|
    ensures r.Ok? ==> IsTag(r.value.tag) && |r.value.tag| > 0
    ensures r.Ok? ==> |r.value.name| > 0 && All(IsNotSpace, r.value.name)
    ensures r.Err? && r.error.ReplaceArity? ==>
      Contains(r.error.spec, ReplaceOp) && |Split(r.error.spec, ReplaceOp)| != 2
    ensures r.Err? && r.error.FieldCount? ==>
      !Contains(r.error.spec, ReplaceOp) && |Fields(r.error.spec)| != 2
    ensures r.Err? && r.error.GithubName? ==> ResolveName(r.error.name).Err?
    ensures r.Err? && r.error.BadVersion? ==> VersionTag(r.error.version) == None
    ensures Contains(spec, ReplaceOp) && |Split(spec, ReplaceOp)| != 2 ==> r == Err(ReplaceArity(spec))
    ensures !Contains(spec, ReplaceOp) && |Fields(spec)| != 2 ==> r == Err(FieldCount(spec))
  {
    if Contains(spec, ReplaceOp) then
      var pkgs := Split(spec, ReplaceOp);
      if |pkgs| != 2 then Err(ReplaceArity(spec))
      else
        match ParsePackage(pkgs[0])
        case Err(e) => Err(e)
        case Ok(pOld) =>
          match ParsePackage(pkgs[1])
          case Err(e) => Err(e)
          case Ok(p) => Ok(p.(name := pOld.name))
    else
      var fields := Fields(spec);
      if |fields| != 2 then Err(FieldCount(spec))
      else
        var name := fields[0];
        var version := fields[1];
        match ResolveName(name)
        case Err(e) => Err(e)
        case Ok(repo) =>
          match VersionTag(version)
          case None => Err(BadVersion(version))
          case Some(tag) => Ok(Package(name, repo.account, repo.project, tag))
  }

  /**
   * The plain form: a name and a version with white space around and between
   * them. The name is kept verbatim, the resolver decides the account and
   * project (or reports a github.com error), and the version decides the tag.
   */
  lemma PlainForm(w1: string, name: string, w2: string, version: string, w3: string)
    requires All(IsSpace, w1) && All(IsSpace, w2) && All(IsSpace, w3) && |w2| > 0
    requires |name| > 0 && All(IsNotSpace, name) && |version| > 0 && All(IsNotSpace, version)
    requires !Contains(w1 + name + w2 + version + w3, ReplaceOp)
    ensures var r := ParsePackage(w1 + name + w2 + version + w3);
      match ResolveName(name)
      case Err(e) => r == Err(e)
      case Ok(repo) =>
        match VersionTag(version)
        case None => r == Err(BadVersion(version))
        case Some(tag) => r == Ok(Package(name, repo.account, repo.project, tag))
  {
    FieldsOfTwo(w1, name, w2, version, w3);
  }

  /**
   * The replace form: errors of the old side come first, then those of the
   * new side; on success the result is the new package under the old name.
   */
  lemma ReplaceForm(a: string, b: string)
    requires !Contains(a, ReplaceOp) && !HasSuffix(a, " =>") && !Contains(b, ReplaceOp)
    ensures var r := ParsePackage(a + ReplaceOp + b);
      && (ParsePackage(a).Err? ==> r == ParsePackage(a))
      && (ParsePackage(a).Ok? && ParsePackage(b).Err? ==> r == ParsePackage(b))
      && (ParsePackage(a).Ok? && ParsePackage(b).Ok? ==>
            r == Ok(ParsePackage(b).value.(name := ParsePackage(a).value.name)))
  {
    var spec := a + ReplaceOp + b;
    SplitReplacePair(a, b);
    assert Contains(spec, ReplaceOp);
  }

  /** More than one " => " is an error, whatever the sides are. */
  lemma ReplaceTooMany(a: string, b: string, c: string)
    requires !Contains(a, ReplaceOp) && !HasSuffix(a, " =>")
    requires !Contains(b, ReplaceOp) && !HasSuffix(b, " =>") && !Contains(c, ReplaceOp)
    ensures var spec := a + ReplaceOp + b + ReplaceOp + c;
      ParsePackage(spec) == Err(ReplaceArity(spec))
  {
    var spec := a + ReplaceOp + b + ReplaceOp + c;
    assert spec == a + ReplaceOp + (b + ReplaceOp + c);
    SplitReplaceCons(a, b + ReplaceOp + c);
    SplitReplaceCons(b, c);
    assert |Split(spec, ReplaceOp)| == 3;
  }

  // ---------------------------------------------------------------------------
  // Parsed, Group, String and Less (modules2tuple.go:131-159)
  // ---------------------------------------------------------------------------

  /** A package is parsed when its GitHub mirror is known. */
  predicate Parsed(p: Package) {
    p.account != "" && p.project != ""
  }

  /** groupRe.ReplaceAllString(s, "_"): each maximal run of non-word characters becomes one '_'. */
  function Collapse(s: string): (r: string)
    decreases |s|
    ensures All(IsWord, r) && |r| <= |s|
  {
    if s == [] then []
    else if IsWord(s[0]) then [s[0]] + Collapse(s[1..])
    else
      var n := LeadingRun(IsNonWord, s);
      "_" + Collapse(s[n..])
  }

  /** Text that is all word characters is left alone; in particular Collapse is idempotent. */
  lemma {:induction false} CollapseWords(s: string)
    requires All(IsWord, s)
    ensures Collapse(s) == s
  {
    if s != [] {
      CollapseWords(s[1..]);
      assert s == [s[0]] + s[1..];
    }
  }

  lemma CollapseIdempotent(s: string)
    ensures Collapse(Collapse(s)) == Collapse(s)
  {
    CollapseWords(Collapse(s));
  }

  /** A whole run of non-word characters turns into a single '_'. */
  lemma CollapseRun(run: string, rest: string)
    requires |run| > 0 && All(IsNonWord, run)
    requires rest == [] || IsWord(rest[0])
    ensures Collapse(run + rest) == "_" + Collapse(rest)
  {
    LeadingRunConcat(IsNonWord, run, rest);
    assert (run + rest)[|run|..] == rest;
  }

  /** The leading run of non-word characters of `a` is unaffected by what follows `a`, when `a` ends in a word character. */
  lemma LeadingNonWordConcat(a: string, b: string)
    requires a != [] && IsWord(a[|a| - 1])
    ensures LeadingRun(IsNonWord, a) < |a|
    ensures LeadingRun(IsNonWord, a + b) == LeadingRun(IsNonWord, a)
    ensures (a + b)[LeadingRun(IsNonWord, a)..] == a[LeadingRun(IsNonWord, a)..] + b
  {
    var n := LeadingRun(IsNonWord, a);
    assert !IsNonWord(a[|a| - 1]);
    assert a[..n] + (a[n..] + b) == a + b;
    LeadingRunConcat(IsNonWord, a[..n], a[n..] + b);
  }

  /** Collapsing respects concatenation at a word character, where no run can straddle the seam. */
  lemma {:induction false} CollapseConcat(a: string, b: string)
    requires a == [] || IsWord(a[|a| - 1])
    ensures Collapse(a + b) == Collapse(a) + Collapse(b)
    decreases |a|
  {
    if a == [] {
      assert a + b == b;
    } else if IsWord(a[0]) {
      CollapseConcat(a[1..], b);
      CollapseWordStep(a, b);
    } else {
      var n := LeadingRun(IsNonWord, a);
      LeadingNonWordConcat(a, b);
      CollapseConcat(a[n..], b);
      CollapseRunStep(a, b, n);
    }
  }

  lemma CollapseWordStep(a: string, b: string)
    requires a != [] && IsWord(a[0])
    requires Collapse(a[1..] + b) == Collapse(a[1..]) + Collapse(b)
    ensures Collapse(a + b) == Collapse(a) + Collapse(b)
  {
    assert (a + b)[0] == a[0];
    assert (a + b)[1..] == a[1..] + b;
  }

  lemma CollapseRunStep(a: string, b: string, n: nat)
    requires a != [] && !IsWord(a[0]) && n == LeadingRun(IsNonWord, a) && n < |a|
    requires LeadingRun(IsNonWord, a + b) == n && (a + b)[n..] == a[n..] + b
    requires Collapse(a[n..] + b) == Collapse(a[n..]) + Collapse(b)
    ensures Collapse(a + b) == Collapse(a) + Collapse(b)
  {
    assert (a + b)[0] == a[0];
  }

  /** Group: the lowercased, collapsed "<account>_<project>" used as the GH_TUPLE group name. */
  function Group(p: Package): (g: string)
    ensures forall i :: 0 <= i < |g| ==> IsDigit(g[i]) || IsLower(g[i]) || g[i] == '_'
    ensures |g| <= |p.account| + 1 + |p.project|
  {
    var c := Collapse(p.account + "_" + p.project);
    var g := ToLower(c);
    assert forall i :: 0 <= i < |g| ==> IsWord(c[i]);
    g
  }

  lemma GroupOf(p: Package, joined: string, c: string)
    requires joined == p.account + "_" + p.project && Collapse(joined) == c
    ensures Group(p) == ToLower(c)
  {
  }

  lemma WordsJoined(a: string, b: string)
    requires All(IsWord, a) && All(IsWord, b)
    ensures All(IsWord, a + "_" + b)
  {
  }

  /** With only word characters on both sides, Group is just the lowercased "<account>_<project>". */
  lemma GroupOfWords(p: Package)
    requires All(IsWord, p.account) && All(IsWord, p.project)
    ensures Group(p) == ToLower(p.account + "_" + p.project)
  {
    WordsJoined(p.account, p.project);
    CollapseWords(p.account + "_" + p.project);
  }

  lemma CollapseDot(a: string, rest: string)
    requires |a| > 0 && All(IsWord, a) && All(IsWord, rest)
    ensures Collapse(a + ("." + rest)) == a + ("_" + rest)
  {
    CollapseWords(a);
    CollapseWords(rest);
    CollapseRun(".", rest);
    CollapseConcat(a, "." + rest);
  }

  lemma DotJoined(a: string, b: string, c: string)
    ensures a + ("." + b) + "_" + c == a + ("." + (b + "_" + c))
  {
  }

  /** A dot inside the account becomes an underscore: Group of ("<a>.<b>", <c>) is "<a>_<b>_<c>" lowercased. */
  lemma GroupOfDotted(p: Package, a: string, b: string)
    requires p.account == a + ("." + b) && |a| > 0 && All(IsWord, a) && All(IsWord, b)
    requires All(IsWord, p.project)
    ensures Group(p) == ToLower(a + ("_" + (b + "_" + p.project)))
  {
    var rest := b + "_" + p.project;
    WordsJoined(b, p.project);
    DotJoined(a, b, p.project);
    CollapseDot(a, rest);
    GroupOf(p, a + ("." + rest), a + ("_" + rest));
  }

  lemma LowerExample()
    ensures ToLower("Foo" + ("_" + ("Bar" + "_" + "Baz"))) == "foo_bar_baz"
  {
    assert "Foo" + ("_" + ("Bar" + "_" + "Baz")) == "Foo_Bar_Baz";
  }

  /** The example of the source's documentation: account "Foo.Bar" and project "Baz" give the group "foo_bar_baz". */
  lemma GroupExample(p: Package)
    requires p.account == "Foo.Bar" && p.project == "Baz"
    ensures Group(p) == "foo_bar_baz"
  {
    assert p.account == "Foo" + ("." + "Bar");
    assert All(IsWord, "Foo") && All(IsWord, "Bar") && All(IsWord, "Baz");
    GroupOfDotted(p, "Foo", "Bar");
    LowerExample();
  }

  /** String: "<account>:<project>:<tag>:<group>/<prefix>/<name>", with the -prefix option as a parameter. */
  function Render(p: Package, prefix: string): string {
    p.account + ":" + p.project + ":" + p.tag + ":" + Group(p) + "/" + prefix + "/" + p.name
  }

  /** The part of String after the third ':'. */
  function Location(p: Package, prefix: string): string {
    Group(p) + "/" + prefix + "/" + p.name
  }

  lemma RenderFields(p: Package, prefix: string)
    ensures Render(p, prefix) == p.account + [':'] + (p.project + [':'] + (p.tag + [':'] + Location(p, prefix)))
  {
  }

  /** Same account and project means same group, so equal locations mean equal names. */
  lemma LocationName(p: Package, q: Package, prefix: string)
    requires p.account == q.account && p.project == q.project
    requires Location(p, prefix) == Location(q, prefix)
    ensures p.name == q.name
  {
    var head := Group(p) + "/" + prefix + "/";
    assert Location(p, prefix) == head + p.name && Location(q, prefix) == head + q.name;
    assert p.name == Location(p, prefix)[|head|..];
    assert q.name == Location(q, prefix)[|head|..];
  }

  predicate NoColon(s: string) { forall i :: 0 <= i < |s| ==> s[i] != ':' }

  /** Splitting at the first occurrence of a character that neither head contains. */
  lemma FirstAt(a: string, x: string, b: string, y: string, c: char)
    requires a + [c] + x == b + [c] + y
    requires forall i :: 0 <= i < |a| ==> a[i] != c
    requires forall i :: 0 <= i < |b| ==> b[i] != c
    ensures a == b && x == y
  {
    var s := a + [c] + x;
    assert s[|a|] == c;
    assert (b + [c] + y)[|b|] == c;
    assert |a| == |b|;
    assert a == s[..|a|] == b;
    assert x == s[|a| + 1..] == y;
  }

  /**
   * Packages whose account, project and tag have no ':' are told apart by
   * their String: the rendering loses nothing.
   */
  lemma RenderInjective(p: Package, q: Package, prefix: string)
    requires NoColon(p.account) && NoColon(p.project) && NoColon(p.tag)
    requires NoColon(q.account) && NoColon(q.project) && NoColon(q.tag)
    requires Render(p, prefix) == Render(q, prefix)
    ensures p == q
  {
    var lp, lq := Location(p, prefix), Location(q, prefix);
    RenderFields(p, prefix);
    RenderFields(q, prefix);
    FirstAt(p.account, p.project + [':'] + (p.tag + [':'] + lp), q.account, q.project + [':'] + (q.tag + [':'] + lq), ':');
    FirstAt(p.project, p.tag + [':'] + lp, q.project, q.tag + [':'] + lq, ':');
    FirstAt(p.tag, lp, q.tag, lq, ':');
    LocationName(p, q, prefix);
  }

  /** PackagesByAccountAndProject.Less: Go's byte order on the rendered strings. */
  predicate PackageLess(p: Package, q: Package, prefix: string) {
    Less(Render(p, prefix), Render(q, prefix))
  }

  /**
   * When two accounts first differ at a character both have, that character
   * decides the order however the rest of the strings go.
   */
  lemma AccountDecides(p: Package, q: Package, prefix: string, k: nat)
    requires k < |p.account| && k < |q.account| && p.account[..k] == q.account[..k]
    requires p.account[k] != q.account[k]
    ensures PackageLess(p, q, prefix) <==> p.account[k] < q.account[k]
  {
    var a := Render(p, prefix);
    var b := Render(q, prefix);
    assert a[..k] == p.account[..k] && a[k] == p.account[k];
    assert b[..k] == q.account[..k] && b[k] == q.account[k];
    LessAt(a, b, k);
  }
}
