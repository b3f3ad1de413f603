/**
 * The two name patterns of modules2tuple.go that map a vanity import path to
 * a GitHub account and project:
 *
 *   gopkgInRx    \Agopkg\.in/([0-9A-Za-z][-0-9A-Za-z]+)(?:\.v.+)?(?:/([0-9A-Za-z][-0-9A-Za-z]+)(?:\.v.+))?\z
 *   golangOrgRx  \Agolang\.org/x/([0-9A-Za-z][-0-9A-Za-z]+)\z
 *
 * Both are written as recognisers that follow Go's leftmost-first submatch
 * rules. A name component is always a maximal run of `[-0-9A-Za-z]`, because
 * what may follow it ('.', '/' or the end) is outside that class. In
 * gopkgInRx the first optional group is preferred and its greedy `.+` runs to
 * the end of the name, so once the rest of the name starts with ".v" the
 * second group is never used: "gopkg.in/ab.v1/cd.v2" is read as the package
 * "ab". The `.` class does not match a newline.
 */
module Names {
  import opened Wrappers
  import opened GoStrings

  /** A GitHub account and project; both empty when the name is not recognised. */
  datatype Repo = Repo(account: string, project: string)

  const NoRepo := Repo("", "")

  /** `[-0-9A-Za-z]` */
  predicate IsNameChar(c: char) { IsAlnum(c) || c == '-' }

  /** `[0-9A-Za-z][-0-9A-Za-z]+` */
  predicate Token(s: string) {
    |s| >= 2 && IsAlnum(s[0]) && All(IsNameChar, s)
  }

  predicate IsNotNewline(c: char) { c != '\n' }

  /** `\.v.+` */
  predicate VersionSuffix(t: string) {
    |t| >= 3 && t[0] == '.' && t[1] == 'v' && All(IsNotNewline, t)
  }

  // ---------------------------------------------------------------------------
  // gopkg.in
  // ---------------------------------------------------------------------------

  const GopkgInPrefix := "gopkg.in/"

  /** What the first optional group `(?:\.v.+)?` may leave behind it when the second group is absent. */
  predicate ShortTail(t: string) { t == [] || VersionSuffix(t) }

  /** `gopkg.in/<pkg>[.v...]`, read as github.com/go-<pkg>/<pkg>. */
  predicate ShortName(name: string, pkg: string) {
    var n := |GopkgInPrefix| + |pkg|;
    Token(pkg) && n <= |name| && name[..n] == GopkgInPrefix + pkg && ShortTail(name[n..])
  }

  /** `gopkg.in/<user>/<pkg>.v...`, read as github.com/<user>/<pkg>. */
  predicate UserName(name: string, user: string, pkg: string) {
    var n := |GopkgInPrefix| + |user| + 1 + |pkg|;
    Token(user) && Token(pkg) && n <= |name| && name[..n] == GopkgInPrefix + user + "/" + pkg &&
    VersionSuffix(name[n..])
  }

  /** Splits a maximal name component off the front of `s`. */
  function Component(s: string): (r: (string, string))
    ensures r.0 + r.1 == s && All(IsNameChar, r.0)
    ensures r.1 == [] || !IsNameChar(r.1[0])
  {
    var n := LeadingRun(IsNameChar, s);
    assert s == s[..n] + s[n..];
    (s[..n], s[n..])
  }

  lemma ComponentOf(c: string, rest: string)
    requires All(IsNameChar, c)
    requires rest == [] || !IsNameChar(rest[0])
    ensures Component(c + rest) == (c, rest)
  {
    LeadingRunConcat(IsNameChar, c, rest);
    assert (c + rest)[..|c|] == c;
    assert (c + rest)[|c|..] == rest;
  }

  lemma ShortNameOf(name: string, s: string, pkg: string, t: string)
    requires name == GopkgInPrefix + s && s == pkg + t && Token(pkg) && ShortTail(t)
    ensures ShortName(name, pkg)
  {
    var n := |GopkgInPrefix| + |pkg|;
    assert name == (GopkgInPrefix + pkg) + t;
    assert name[..n] == GopkgInPrefix + pkg;
    assert name[n..] == t;
  }

  lemma UserNameOf(name: string, s: string, user: string, t: string, s2: string, pkg: string, u: string)
    requires name == GopkgInPrefix + s && s == user + t && t == ['/'] + s2 && s2 == pkg + u
    requires Token(user) && Token(pkg) && VersionSuffix(u)
    ensures UserName(name, user, pkg)
  {
    var n := |GopkgInPrefix| + |user| + 1 + |pkg|;
    assert name == (GopkgInPrefix + user + "/" + pkg) + u;
    assert name[..n] == GopkgInPrefix + user + "/" + pkg;
    assert name[n..] == u;
  }

  /**
   * parseGopkgInPackage: the account and project of a gopkg.in name, or
   * NoRepo when gopkgInRx does not match.
   */
  function GopkgIn(name: string): (r: Repo)
    ensures r != NoRepo ==>
      (r.account == "go-" + r.project && ShortName(name, r.project)) ||
      UserName(name, r.account, r.project)
  {
    if !HasPrefix(name, GopkgInPrefix) then NoRepo
    else
      var s := name[|GopkgInPrefix|..];
      assert name == GopkgInPrefix + s;
      var (pkg, t) := Component(s);
      if !Token(pkg) then NoRepo
      else if ShortTail(t) then
        ShortNameOf(name, s, pkg, t);
        Repo("go-" + pkg, pkg)
      else if t[0] == '/' then
        var s2 := t[1..];
        assert t == ['/'] + s2;
        var (pkg2, u) := Component(s2);
        if Token(pkg2) && VersionSuffix(u) then
          UserNameOf(name, s, pkg, t, s2, pkg2, u);
          Repo(pkg, pkg2)
        else NoRepo
      else NoRepo
  }

  lemma GopkgInShortText(pkg: string, t: string)
    requires Token(pkg) && ShortTail(t)
    ensures GopkgIn(GopkgInPrefix + (pkg + t)) == Repo("go-" + pkg, pkg)
  {
    AfterPrefix(GopkgInPrefix + (pkg + t), pkg + t);
    ComponentOf(pkg, t);
  }

  /** Every short gopkg.in name resolves to go-<pkg>/<pkg>. */
  lemma GopkgInShort(name: string, pkg: string)
    requires ShortName(name, pkg)
    ensures GopkgIn(name) == Repo("go-" + pkg, pkg)
  {
    var n := |GopkgInPrefix| + |pkg|;
    var t := name[n..];
    assert name == name[..n] + t;
    assert name == GopkgInPrefix + (pkg + t);
    GopkgInShortText(pkg, t);
  }

  lemma AfterPrefix(name: string, s: string)
    requires name == GopkgInPrefix + s
    ensures HasPrefix(name, GopkgInPrefix) && name[|GopkgInPrefix|..] == s
  {
    assert name[..|GopkgInPrefix|] == GopkgInPrefix;
  }

  lemma UserComponents(s: string, user: string, t: string, s2: string, pkg: string, u: string)
    requires s == user + t && t == ['/'] + s2 && s2 == pkg + u
    requires Token(user) && Token(pkg) && VersionSuffix(u)
    ensures Component(s) == (user, t) && !ShortTail(t) && t[0] == '/' && t[1..] == s2
    ensures Component(s2) == (pkg, u)
  {
    ComponentOf(user, t);
    assert t[1..] == s2;
    ComponentOf(pkg, u);
  }

  lemma GopkgInUserSteps(name: string, s: string, user: string, t: string, s2: string, pkg: string, u: string)
    requires HasPrefix(name, GopkgInPrefix) && name[|GopkgInPrefix|..] == s
    requires Component(s) == (user, t) && !ShortTail(t) && t[0] == '/' && t[1..] == s2
    requires Component(s2) == (pkg, u) && Token(user) && Token(pkg) && VersionSuffix(u)
    ensures GopkgIn(name) == Repo(user, pkg)
  {
  }

  lemma GopkgInUserText(name: string, s: string, user: string, t: string, s2: string, pkg: string, u: string)
    requires name == GopkgInPrefix + s && s == user + t && t == ['/'] + s2 && s2 == pkg + u
    requires Token(user) && Token(pkg) && VersionSuffix(u)
    ensures GopkgIn(name) == Repo(user, pkg)
  {
    AfterPrefix(name, s);
    UserComponents(s, user, t, s2, pkg, u);
    GopkgInUserSteps(name, s, user, t, s2, pkg, u);
  }

  /** Every gopkg.in/<user>/<pkg>.v... name resolves to <user>/<pkg>. */
  lemma GopkgInUser(name: string, user: string, pkg: string)
    requires UserName(name, user, pkg)
    ensures GopkgIn(name) == Repo(user, pkg)
  {
    var n := |GopkgInPrefix| + |user| + 1 + |pkg|;
    var u := name[n..];
    assert name == name[..n] + u;
    var s2 := pkg + u;
    var t := ['/'] + s2;
    var s := user + t;
    assert name == GopkgInPrefix + s;
    GopkgInUserText(name, s, user, t, s2, pkg, u);
  }

  /** A gopkg.in name is left unresolved exactly when it has neither of the two forms. */
  lemma GopkgInNone(name: string)
    ensures GopkgIn(name) == NoRepo <==>
      (forall pkg :: !ShortName(name, pkg)) && (forall user, pkg :: !UserName(name, user, pkg))
  {
    forall pkg | ShortName(name, pkg) ensures GopkgIn(name) != NoRepo {
      GopkgInShort(name, pkg);
    }
    forall user, pkg | UserName(name, user, pkg) ensures GopkgIn(name) != NoRepo {
      GopkgInUser(name, user, pkg);
    }
  }

  lemma GopkgInShortExample()
    ensures GopkgIn("gopkg.in/yaml.v2") == Repo("go-yaml", "yaml")
  {
    assert Token("yaml") && ShortTail(".v2");
    assert GopkgInPrefix + ("yaml" + ".v2") == "gopkg.in/yaml.v2";
    GopkgInShortText("yaml", ".v2");
  }

  lemma GopkgInUserExample()
    ensures GopkgIn("gopkg.in/go-check/check.v1") == Repo("go-check", "check")
  {
    var name, s, t, s2 := "gopkg.in/go-check/check.v1", "go-check/check.v1", "/check.v1", "check.v1";
    assert Token("go-check") && Token("check") && VersionSuffix(".v1");
    assert s2 == "check" + ".v1";
    assert t == ['/'] + s2;
    assert s == "go-check" + t;
    assert name == GopkgInPrefix + s;
    GopkgInUserText(name, s, "go-check", t, s2, "check", ".v1");
  }

  /** The greedy first group takes the rest of the name, so the second component is ignored. */
  lemma GopkgInGreedyExample()
    ensures GopkgIn("gopkg.in/ab.v1/cd.v2") == Repo("go-ab", "ab")
  {
    assert Token("ab") && ShortTail(".v1/cd.v2");
    assert GopkgInPrefix + ("ab" + ".v1/cd.v2") == "gopkg.in/ab.v1/cd.v2";
    GopkgInShortText("ab", ".v1/cd.v2");
  }

  // ---------------------------------------------------------------------------
  // golang.org/x
  // ---------------------------------------------------------------------------

  const GolangOrgPrefix := "golang.org/x/"

  /** parseGolangOrgPackage: golang/<pkg> for golang.org/x/<pkg>, NoRepo otherwise. */
  function GolangOrg(name: string): (r: Repo)
    ensures r != NoRepo ==> r.account == "golang" && Token(r.project) && name == GolangOrgPrefix + r.project
  {
    if HasPrefix(name, GolangOrgPrefix) && Token(name[|GolangOrgPrefix|..]) then
      assert name == GolangOrgPrefix + name[|GolangOrgPrefix|..];
      Repo("golang", name[|GolangOrgPrefix|..])
    else NoRepo
  }

  /** Every golang.org/x/<pkg> name resolves to golang/<pkg>; a deeper path such as golang.org/x/net/context does not. */
  lemma GolangOrgOf(pkg: string)
    requires Token(pkg)
    ensures GolangOrg(GolangOrgPrefix + pkg) == Repo("golang", pkg)
  {
    assert (GolangOrgPrefix + pkg)[..|GolangOrgPrefix|] == GolangOrgPrefix;
    assert (GolangOrgPrefix + pkg)[|GolangOrgPrefix|..] == pkg;
  }

  lemma GolangOrgNone(name: string)
    ensures GolangOrg(name) == NoRepo <==> forall pkg :: Token(pkg) ==> name != GolangOrgPrefix + pkg
  {
    forall pkg | Token(pkg) && name == GolangOrgPrefix + pkg ensures GolangOrg(name) != NoRepo {
      GolangOrgOf(pkg);
    }
  }
}
