/**
 * The per-repository audit (`audit_repo`) and the badge set (`Badges`): a
 * dozen presence facts about a repository root, the four badges derived from
 * them, the 0-100 score, and the ordered lists of missing and forbidden items.
 */
module Auditor {
  import opened Listing
  import opened Sequences

  /** The badge glyphs, as abstract tokens: one per badge and one for
      "Rhodium certified" (all four badges). */
  datatype Glyph = Shield | Lock | Link | Clipboard | Diamond

  /** The fixed order in which glyphs are emitted. */
  function Rank(g: Glyph): nat {
    match g
    case Shield => 0
    case Lock => 1
    case Link => 2
    case Clipboard => 3
    case Diamond => 4
  }

  datatype Badges = Badges(dependable: bool, secure: bool, interoperable: bool, governed: bool)
  {
    /** Rhodium certification: every badge earned. */
    predicate IsRhodium() {
      dependable && secure && interoperable && governed
    }

    /** The badges in the fixed order dependable, secure, interoperable, governed. */
    function Flags(): seq<bool> {
      [dependable, secure, interoperable, governed]
    }

    /** Number of badges earned. */
    function Earned(): nat {
      CountTrue(Flags())
    }

    /** Whether glyph `g` belongs in the badge string. */
    predicate Shows(g: Glyph) {
      match g
      case Shield => dependable
      case Lock => secure
      case Link => interoperable
      case Clipboard => governed
      case Diamond => IsRhodium()
    }

    /** `Badges::to_string`, with glyphs as tokens: the string is built by
        appending one glyph per earned badge, then the certification glyph. */
    method Glyphs() returns (s: seq<Glyph>)
      ensures forall g :: g in s <==> Shows(g)
      ensures forall i, j :: 0 <= i < j < |s| ==> Rank(s[i]) < Rank(s[j])
      ensures |s| == Earned() + (if IsRhodium() then 1 else 0)
    {
      EarnedCounts(this);
      s := [];
      if dependable { s := s + [Shield]; }
      if secure { s := s + [Lock]; }
      if interoperable { s := s + [Link]; }
      if governed { s := s + [Clipboard]; }
      if IsRhodium() { s := s + [Diamond]; }
    }
  }

  /** The number of earned badges, badge by badge. */
  lemma EarnedCounts(b: Badges)
    ensures b.Earned() == (if b.dependable then 1 else 0) + (if b.secure then 1 else 0) +
                          (if b.interoperable then 1 else 0) + (if b.governed then 1 else 0)
  {
    var s1, s2, s3 := [b.dependable], [b.dependable, b.secure], [b.dependable, b.secure, b.interoperable];
    assert s1[..0] == [] && s2[..1] == s1 && s3[..2] == s2 && b.Flags()[..3] == s3;
    assert CountTrue(s1) == (if b.dependable then 1 else 0);
    assert CountTrue(s2) == CountTrue(s1) + (if b.secure then 1 else 0);
    assert CountTrue(s3) == CountTrue(s2) + (if b.interoperable then 1 else 0);
  }

  /** The presence facts `audit_repo` evaluates, in its order. */
  datatype Facts = Facts(
    rust: bool, ada: bool, elixir: bool, python: bool,
    nickel: bool, justfile: bool, yaml: bool,
    adoc: bool, void: bool,
    license: bool, contributing: bool, codeOfConduct: bool,
    readmeAdoc: bool, makefile: bool)

  /** The facts, as `has_file` would report them for `dir`. */
  function FactsOf(dir: Dir): Facts
  {
    Facts(
      rust := Present(dir, Exact("Cargo.toml")),
      ada := Present(dir, AnyWithExtension("adb")) || Present(dir, AnyWithExtension("ads")),
      elixir := Present(dir, Exact("mix.exs")),
      python := Present(dir, AnyWithExtension("py")),
      nickel := Present(dir, AnyWithExtension("ncl")),
      justfile := Present(dir, Exact("Justfile")) || Present(dir, Exact("justfile")),
      yaml := Present(dir, AnyWithExtension("yaml")) || Present(dir, AnyWithExtension("yml")),
      adoc := Present(dir, AnyWithExtension("adoc")),
      void := Present(dir, Exact("void.ttl")),
      license := Present(dir, Exact("LICENSE")),
      contributing := Present(dir, Exact("CONTRIBUTING.md")),
      codeOfConduct := Present(dir, Exact("CODE_OF_CONDUCT.md")),
      readmeAdoc := Present(dir, Exact("README.adoc")),
      makefile := Present(dir, Exact("Makefile")))
  }

  /** The four badges, each a conjunction of presence facts. */
  function BadgesOf(f: Facts): Badges {
    Badges(
      dependable := (f.rust || f.ada || f.elixir) && !f.python,
      secure := f.nickel && f.justfile && !f.yaml,
      interoperable := f.adoc && f.void,
      governed := f.license && f.contributing)
  }

  /** The required artifacts, reported by name when absent. */
  datatype Requirement = License | Contributing | Justfile | VoidTtl | ReadmeAdoc | ConfigNcl

  /** The name the audit reports for a missing artifact. */
  function Label(r: Requirement): string {
    match r
    case License => "LICENSE"
    case Contributing => "CONTRIBUTING.md"
    case Justfile => "Justfile"
    case VoidTtl => "void.ttl"
    case ReadmeAdoc => "README.adoc"
    case ConfigNcl => "config.ncl"
  }

  /** The required artifacts, in the order the audit reports their absence. */
  const Required: seq<Requirement> := [License, Contributing, Justfile, VoidTtl, ReadmeAdoc, ConfigNcl]

  /** Whether the facts provide a required artifact. */
  predicate Provides(f: Facts, r: Requirement) {
    match r
    case License => f.license
    case Contributing => f.contributing
    case Justfile => f.justfile
    case VoidTtl => f.void
    case ReadmeAdoc => f.adoc || f.readmeAdoc
    case ConfigNcl => f.nickel
  }

  /** Selects the required artifacts that the facts do not provide. */
  function Absent(f: Facts): Requirement -> bool {
    r => !Provides(f, r)
  }

  /** The missing list, as `audit_repo` builds it by successive pushes. */
  function MissingOf(f: Facts): seq<Requirement> {
    var m1 := PushIf([], !f.license, License);
    var m2 := PushIf(m1, !f.contributing, Contributing);
    var m3 := PushIf(m2, !f.justfile, Justfile);
    var m4 := PushIf(m3, !f.void, VoidTtl);
    var m5 := PushIf(m4, !f.adoc && !f.readmeAdoc, ReadmeAdoc);
    PushIf(m5, !f.nickel, ConfigNcl)
  }

  /** The disallowed artifacts, reported with their preferred replacement. */
  datatype Violation = PythonSource | YamlConfig | MakefileBuild

  /** The text the audit reports for a forbidden artifact. */
  function Message(v: Violation): string {
    match v
    case PythonSource => "*.py (use Rust instead)"
    case YamlConfig => "*.yaml/*.yml (use Nickel)"
    case MakefileBuild => "Makefile (use Justfile)"
  }

  /** The forbidden artifacts, in the order the audit reports them. */
  const Banned: seq<Violation> := [PythonSource, YamlConfig, MakefileBuild]

  /** Whether the facts trigger a forbidden artifact. */
  predicate Triggers(f: Facts, v: Violation) {
    match v
    case PythonSource => f.python
    case YamlConfig => f.yaml
    case MakefileBuild => f.makefile
  }

  /** Selects the forbidden artifacts that the facts trigger. */
  function Triggered(f: Facts): Violation -> bool {
    v => Triggers(f, v)
  }

  /** The forbidden list, as `audit_repo` builds it by successive pushes. */
  function ForbiddenOf(f: Facts): seq<Violation> {
    var v1 := PushIf([], f.python, PythonSource);
    var v2 := PushIf(v1, f.yaml, YamlConfig);
    PushIf(v2, f.makefile, MakefileBuild)
  }

  /** Distinct artifacts are reported under distinct texts, so the reported
      strings carry exactly the information of the tokens. */
  lemma ReportedTextsDistinct()
    ensures forall r1, r2 :: r1 != r2 ==> Label(r1) != Label(r2)
    ensures forall v1, v2 :: v1 != v2 ==> Message(v1) != Message(v2)
  {
    assert Label(Justfile)[0] != Label(VoidTtl)[0];
    assert Message(PythonSource)[2] != Message(YamlConfig)[2];
    assert Message(PythonSource)[0] != Message(MakefileBuild)[0];
    assert Message(YamlConfig)[0] != Message(MakefileBuild)[0];
  }

  /** One repository's audit result. */
  datatype RepoAudit = RepoAudit(
    name: string, path: string, score: nat, badges: Badges,
    missing: seq<Requirement>, forbidden: seq<Violation>)

  /** The audit of a repository at `path` whose presence facts are `f`. */
  function AuditOf(path: string, f: Facts): RepoAudit {
    var b := BadgesOf(f);
    RepoAudit(FileName(path), path, 25 * b.Earned(), b, MissingOf(f), ForbiddenOf(f))
  }

  /** Specification of `audit_repo`: what the audit of `dir`, found at `path`, is. */
  function Audit(path: string, dir: Dir): RepoAudit {
    AuditOf(path, FactsOf(dir))
  }

  /** The score's iterator count: how many badges are earned. */
  method CountEarned(b: Badges) returns (n: nat)
    ensures n == b.Earned()
    ensures n <= 4
  {
    var flags := b.Flags();
    n := 0;
    var i := 0;
    while i < |flags|
      invariant 0 <= i <= |flags|
      invariant n == CountTrue(flags[..i])
    {
      assert flags[..i + 1][..i] == flags[..i];
      if flags[i] { n := n + 1; }
      i := i + 1;
    }
    assert flags[..i] == flags;
    CountTrueBounds(flags);
  }

  /** The score: 25 per earned badge, narrowed to a byte (`as u8`), which
      keeps it intact. */
  method Score(b: Badges) returns (score: nat)
    ensures score == 25 * b.Earned() && score <= 100
  {
    var earned := CountEarned(b);
    var badgeScore := earned * 25;
    score := badgeScore % 256;   // `as u8`
  }

  /** `has_file(dir, p) || has_file(dir, q)`: the second lookup happens only
      when the first fails. */
  method HasEither(dir: Dir, p: Pattern, q: Pattern) returns (found: bool)
    ensures found == (Present(dir, p) || Present(dir, q))
  {
    found := HasFile(dir, p);
    if !found {
      found := HasFile(dir, q);
    }
  }

  /** The "missing" block of `audit_repo`: one push per absent requirement, in
      order; README.adoc is looked up only when no .adoc file was found. */
  method ListMissing(dir: Dir, ghost f: Facts, hasLicense: bool, hasContributing: bool,
                     hasJustfile: bool, hasVoid: bool, hasAdoc: bool, hasNickel: bool)
    returns (missing: seq<Requirement>)
    requires hasLicense == f.license && hasContributing == f.contributing && hasJustfile == f.justfile
    requires hasVoid == f.void && hasAdoc == f.adoc && hasNickel == f.nickel
    requires f.readmeAdoc == Present(dir, Exact("README.adoc"))
    ensures missing == MissingOf(f)
  {
    missing := [];
    if !hasLicense { missing := missing + [License]; }
    if !hasContributing { missing := missing + [Contributing]; }
    if !hasJustfile { missing := missing + [Justfile]; }
    if !hasVoid { missing := missing + [VoidTtl]; }
    if !hasAdoc {
      var hasReadme := HasFile(dir, Exact("README.adoc"));
      if !hasReadme { missing := missing + [ReadmeAdoc]; }
    }
    if !hasNickel { missing := missing + [ConfigNcl]; }
  }

  /** The "forbidden" block of `audit_repo`; the Makefile is looked up last. */
  method ListForbidden(dir: Dir, ghost f: Facts, hasPython: bool, hasYaml: bool)
    returns (forbidden: seq<Violation>)
    requires hasPython == f.python && hasYaml == f.yaml
    requires f.makefile == Present(dir, Exact("Makefile"))
    ensures forbidden == ForbiddenOf(f)
  {
    forbidden := [];
    if hasPython { forbidden := forbidden + [PythonSource]; }
    if hasYaml { forbidden := forbidden + [YamlConfig]; }
    var hasMakefile := HasFile(dir, Exact("Makefile"));
    if hasMakefile { forbidden := forbidden + [MakefileBuild]; }
  }

  /** The "dependable languages" block of `audit_repo`. */
  method CheckDependable(dir: Dir) returns (dependable: bool, hasPython: bool)
    ensures dependable == BadgesOf(FactsOf(dir)).dependable
    ensures hasPython == FactsOf(dir).python
  {
    var hasRust := HasFile(dir, Exact("Cargo.toml"));
    var hasAda := HasEither(dir, AnyWithExtension("adb"), AnyWithExtension("ads"));
    var hasElixir := HasFile(dir, Exact("mix.exs"));
    hasPython := HasFile(dir, AnyWithExtension("py"));
    dependable := (hasRust || hasAda || hasElixir) && !hasPython;
  }

  /** The "secure practices" block of `audit_repo`. */
  method CheckSecure(dir: Dir) returns (secure: bool, hasNickel: bool, hasJustfile: bool, hasYaml: bool)
    ensures secure == BadgesOf(FactsOf(dir)).secure
    ensures hasNickel == FactsOf(dir).nickel && hasJustfile == FactsOf(dir).justfile
    ensures hasYaml == FactsOf(dir).yaml
  {
    hasNickel := HasFile(dir, AnyWithExtension("ncl"));
    hasJustfile := HasEither(dir, Exact("Justfile"), Exact("justfile"));
    hasYaml := HasEither(dir, AnyWithExtension("yaml"), AnyWithExtension("yml"));
    secure := hasNickel && hasJustfile && !hasYaml;
  }

  /** The "interoperability" block of `audit_repo`. */
  method CheckInteroperable(dir: Dir) returns (interoperable: bool, hasAdoc: bool, hasVoid: bool)
    ensures interoperable == BadgesOf(FactsOf(dir)).interoperable
    ensures hasAdoc == FactsOf(dir).adoc && hasVoid == FactsOf(dir).void
  {
    hasAdoc := HasFile(dir, AnyWithExtension("adoc"));
    hasVoid := HasFile(dir, Exact("void.ttl"));
    interoperable := hasAdoc && hasVoid;
  }

  /** The "governance" block of `audit_repo`; the code-of-conduct lookup is made
      but its answer is never used. */
  method CheckGoverned(dir: Dir) returns (governed: bool, hasLicense: bool, hasContributing: bool)
    ensures governed == BadgesOf(FactsOf(dir)).governed
    ensures hasLicense == FactsOf(dir).license && hasContributing == FactsOf(dir).contributing
  {
    hasLicense := HasFile(dir, Exact("LICENSE"));
    hasContributing := HasFile(dir, Exact("CONTRIBUTING.md"));
    var hasCoc := HasFile(dir, Exact("CODE_OF_CONDUCT.md"));
    governed := hasLicense && hasContributing;
  }

  /** `audit_repo`: the four badge checks in order, then the missing and
      forbidden lists, then `25 * earned` narrowed to a byte. */
  method AuditRepo(path: string, dir: Dir) returns (audit: RepoAudit)
    ensures audit == Audit(path, dir)
  {
    var name := FileName(path);
    var dependable, hasPython := CheckDependable(dir);
    var secure, hasNickel, hasJustfile, hasYaml := CheckSecure(dir);
    var interoperable, hasAdoc, hasVoid := CheckInteroperable(dir);
    var governed, hasLicense, hasContributing := CheckGoverned(dir);
    var badges := Badges(dependable, secure, interoperable, governed);

    ghost var f := FactsOf(dir);
    assert badges == BadgesOf(f);
    var missing := ListMissing(dir, f, hasLicense, hasContributing, hasJustfile, hasVoid, hasAdoc, hasNickel);
    var forbidden := ListForbidden(dir, f, hasPython, hasYaml);

    var score := Score(badges);
    audit := RepoAudit(name, path, score, badges, missing, forbidden);
  }

  // ---------------------------------------------------------------------------
  // Properties of the audit
  // ---------------------------------------------------------------------------

  /** The score is 25 per earned badge, so one of 0, 25, 50, 75, 100, and it
      fits in a byte: the narrowing cast never truncates. */
  lemma ScoreIsQuarterPerBadge(path: string, dir: Dir)
    ensures Audit(path, dir).score == 25 * Audit(path, dir).badges.Earned()
    ensures Audit(path, dir).score in {0, 25, 50, 75, 100}
    ensures Audit(path, dir).score < 256
  {
    EarnedCounts(Audit(path, dir).badges);
  }

  /** Rhodium certification, all four badges and a perfect score coincide. */
  lemma RhodiumIffPerfect(b: Badges)
    ensures b.IsRhodium() <==> b.Earned() == 4
    ensures b.IsRhodium() <==> 25 * b.Earned() == 100
  {
    EarnedCounts(b);
  }

  /** A listed ".py" child vetoes `dependable`, whatever language markers exist. */
  lemma PythonVetoesDependable(path: string, dir: Dir, k: nat)
    requires dir.listable && k < |dir.entries|
    requires EndsWithExtension(dir.entries[k].name, "py")
    ensures !Audit(path, dir).badges.dependable
    ensures PythonSource in Audit(path, dir).forbidden
  {
    ExtensionPresence(dir, "py");
  }

  /** A listed ".yaml" or ".yml" child vetoes `secure`, even with a Nickel file
      and a Justfile present. */
  lemma YamlVetoesSecure(path: string, dir: Dir, k: nat)
    requires dir.listable && k < |dir.entries|
    requires EndsWithExtension(dir.entries[k].name, "yaml") || EndsWithExtension(dir.entries[k].name, "yml")
    ensures !Audit(path, dir).badges.secure
    ensures YamlConfig in Audit(path, dir).forbidden
  {
    ExtensionPresence(dir, "yaml");
    ExtensionPresence(dir, "yml");
  }

  /** `interoperable` holds iff some child has extension "adoc" and a
      resolvable "void.ttl" exists. */
  lemma InteroperableIff(path: string, dir: Dir)
    ensures Audit(path, dir).badges.interoperable <==>
              (dir.listable && exists k :: 0 <= k < |dir.entries| && EndsWithExtension(dir.entries[k].name, "adoc")) &&
              (dir.searchable && exists k :: 0 <= k < |dir.entries| && dir.entries[k] == Entry("void.ttl", true))
  {
    ExtensionPresence(dir, "adoc");
    ExactNamePresence(dir, "void.ttl");
  }

  /** `governed` holds iff resolvable "LICENSE" and "CONTRIBUTING.md" exist. */
  lemma GovernedIff(path: string, dir: Dir)
    ensures Audit(path, dir).badges.governed <==>
              dir.searchable &&
              (exists k :: 0 <= k < |dir.entries| && dir.entries[k] == Entry("LICENSE", true)) &&
              (exists k :: 0 <= k < |dir.entries| && dir.entries[k] == Entry("CONTRIBUTING.md", true))
  {
    ExactNamePresence(dir, "LICENSE");
    ExactNamePresence(dir, "CONTRIBUTING.md");
  }

  /** When the listing fails, no extension is seen: `secure` and
      `interoperable` are lost, config.ncl is reported missing, and neither
      the Python nor the YAML item is reported forbidden. */
  lemma UnlistableDir(path: string, dir: Dir)
    requires !dir.listable
    ensures !Audit(path, dir).badges.secure && !Audit(path, dir).badges.interoperable
    ensures ConfigNcl in Audit(path, dir).missing
    ensures PythonSource !in Audit(path, dir).forbidden && YamlConfig !in Audit(path, dir).forbidden
  {
  }

  /** The missing list is the required list with the provided items deleted. */
  lemma MissingIsFilter(f: Facts)
    ensures MissingOf(f) == Filter(Required, Absent(f))
  {
    RequiredPushes(Absent(f));
  }

  /** Filtering the required list pushes its entries one by one, in order. */
  lemma {:induction false} RequiredPushes(keep: Requirement -> bool)
    ensures Filter(Required, keep) ==
              PushIf(PushIf(PushIf(PushIf(PushIf(PushIf([],
                keep(License), License), keep(Contributing), Contributing), keep(Justfile), Justfile),
                keep(VoidTtl), VoidTtl), keep(ReadmeAdoc), ReadmeAdoc), keep(ConfigNcl), ConfigNcl)
  {
    var r1 := [License];
    var r2 := r1 + [Contributing];
    var r3 := r2 + [Justfile];
    var r4 := r3 + [VoidTtl];
    var r5 := r4 + [ReadmeAdoc];
    var r6 := r5 + [ConfigNcl];
    assert [] + [License] == r1;
    FilterPush([], License, keep);
    FilterPush(r1, Contributing, keep);
    FilterPush(r2, Justfile, keep);
    FilterPush(r3, VoidTtl, keep);
    FilterPush(r4, ReadmeAdoc, keep);
    FilterPush(r5, ConfigNcl, keep);
    assert r6 == Required;
  }

  /** The forbidden list is the forbidden catalogue with the untriggered items
      deleted. */
  lemma ForbiddenIsFilter(f: Facts)
    ensures ForbiddenOf(f) == Filter(Banned, Triggered(f))
  {
    BannedPushes(Triggered(f));
  }

  /** Filtering the forbidden catalogue pushes its entries one by one, in order. */
  lemma {:induction false} BannedPushes(keep: Violation -> bool)
    ensures Filter(Banned, keep) ==
              PushIf(PushIf(PushIf([], keep(PythonSource), PythonSource),
                keep(YamlConfig), YamlConfig), keep(MakefileBuild), MakefileBuild)
  {
    var r1 := [PythonSource];
    var r2 := r1 + [YamlConfig];
    var r3 := r2 + [MakefileBuild];
    assert [] + [PythonSource] == r1;
    FilterPush([], PythonSource, keep);
    FilterPush(r1, YamlConfig, keep);
    FilterPush(r2, MakefileBuild, keep);
    assert r3 == Banned;
  }

  /** The required list names every requirement. */
  lemma EveryRequirementListed(r: Requirement)
    ensures r in Required
  {
    var req := Required;
    match r
    case License => assert req[0] == r;
    case Contributing => assert req[1] == r;
    case Justfile => assert req[2] == r;
    case VoidTtl => assert req[3] == r;
    case ReadmeAdoc => assert req[4] == r;
    case ConfigNcl => assert req[5] == r;
  }

  /** The forbidden catalogue names every violation. */
  lemma EveryViolationListed(v: Violation)
    ensures v in Banned
  {
    var banned := Banned;
    match v
    case PythonSource => assert banned[0] == v;
    case YamlConfig => assert banned[1] == v;
    case MakefileBuild => assert banned[2] == v;
  }

  /** Any selection from the required list keeps its order, has no duplicates
      and holds exactly the selected artifacts. */
  lemma RequiredSelection(keep: Requirement -> bool)
    ensures IsSubsequence(Filter(Required, keep), Required)
    ensures Distinct(Filter(Required, keep))
    ensures forall r :: r in Filter(Required, keep) <==> keep(r)
  {
    FilterIsSubsequence(Required, keep);
    assert Distinct(Required);
    FilterKeepsDistinct(Required, keep);
    forall r ensures r in Filter(Required, keep) <==> keep(r) {
      FilterMembership(Required, keep, r);
      EveryRequirementListed(r);
    }
  }

  /** Any selection from the forbidden catalogue keeps its order, has no
      duplicates, holds exactly the selected entries, and is empty iff nothing
      is selected. */
  lemma BannedSelection(keep: Violation -> bool)
    ensures IsSubsequence(Filter(Banned, keep), Banned)
    ensures Distinct(Filter(Banned, keep))
    ensures forall v :: v in Filter(Banned, keep) <==> keep(v)
    ensures |Filter(Banned, keep)| <= 3
    ensures Filter(Banned, keep) == [] <==> !keep(PythonSource) && !keep(YamlConfig) && !keep(MakefileBuild)
  {
    FilterIsSubsequence(Banned, keep);
    assert Distinct(Banned);
    FilterKeepsDistinct(Banned, keep);
    FilterLength(Banned, keep);
    forall v ensures v in Filter(Banned, keep) <==> keep(v) {
      FilterMembership(Banned, keep, v);
      EveryViolationListed(v);
    }
  }

  /** The missing list is a duplicate-free subsequence of the required list
      that names exactly the artifacts the facts do not provide. */
  lemma MissingList(f: Facts)
    ensures IsSubsequence(MissingOf(f), Required)
    ensures Distinct(MissingOf(f))
    ensures forall r :: r in MissingOf(f) <==> !Provides(f, r)
  {
    MissingIsFilter(f);
    RequiredSelection(Absent(f));
  }

  /** The forbidden list is a duplicate-free subsequence of the three fixed
      entries, naming exactly the triggered ones; so it is at most three long,
      and empty iff nothing forbidden is found. */
  lemma ForbiddenList(f: Facts)
    ensures IsSubsequence(ForbiddenOf(f), Banned)
    ensures Distinct(ForbiddenOf(f))
    ensures forall v :: v in ForbiddenOf(f) <==> Triggers(f, v)
    ensures |ForbiddenOf(f)| <= 3
    ensures ForbiddenOf(f) == [] <==> !f.python && !f.yaml && !f.makefile
  {
    ForbiddenIsFilter(f);
    BannedSelection(Triggered(f));
  }

  /** In terms of the directory: LICENSE is reported missing iff no LICENSE is
      found, and README.adoc iff neither an ".adoc" child nor an exact
      "README.adoc" is found (independently of `interoperable`). */
  lemma MissingItems(path: string, dir: Dir)
    ensures IsSubsequence(Audit(path, dir).missing, Required) && Distinct(Audit(path, dir).missing)
    ensures License in Audit(path, dir).missing <==> !Present(dir, Exact("LICENSE"))
    ensures ReadmeAdoc in Audit(path, dir).missing <==>
              !Present(dir, AnyWithExtension("adoc")) && !Present(dir, Exact("README.adoc"))
  {
    var f := FactsOf(dir);
    assert Audit(path, dir).missing == MissingOf(f);
    MissingList(f);
    LicenseAndReadme(f);
  }

  /** LICENSE is missing iff not provided; README.adoc iff neither an ".adoc"
      file nor README.adoc itself is present. */
  lemma LicenseAndReadme(f: Facts)
    ensures License in MissingOf(f) <==> !f.license
    ensures ReadmeAdoc in MissingOf(f) <==> !f.adoc && !f.readmeAdoc
  {
    MissingList(f);
  }

  /** In terms of the directory: the forbidden list is empty iff no ".py",
      ".yaml" or ".yml" child and no "Makefile" is found. */
  lemma ForbiddenItems(path: string, dir: Dir)
    ensures IsSubsequence(Audit(path, dir).forbidden, Banned) && Distinct(Audit(path, dir).forbidden)
    ensures Audit(path, dir).forbidden == [] <==>
              !Present(dir, AnyWithExtension("py")) && !Present(dir, AnyWithExtension("yaml")) &&
              !Present(dir, AnyWithExtension("yml")) && !Present(dir, Exact("Makefile"))
  {
    var f := FactsOf(dir);
    assert Audit(path, dir).forbidden == ForbiddenOf(f);
    ForbiddenList(f);
  }

  /** Pushing a child that does not match `p` leaves `p`'s presence unchanged. */
  lemma PushUnrelated(dir: Dir, e: Entry, p: Pattern)
    requires Unrelated(e, p)
    ensures Present(dir.(entries := dir.entries + [e]), p) == Present(dir, p)
  {
    assert dir.entries + [e] == [] + dir.entries + [e];
    UnrelatedEntriesIrrelevant(dir, [], [e], p);
  }

  /** "CODE_OF_CONDUCT.md" is detected but influences nothing: adding it to a
      repository leaves the whole audit unchanged. */
  lemma CodeOfConductIgnored(path: string, dir: Dir, resolves: bool)
    ensures Audit(path, dir.(entries := dir.entries + [Entry("CODE_OF_CONDUCT.md", resolves)])) == Audit(path, dir)
  {
    var f, g := FactsOf(dir.(entries := dir.entries + [Entry("CODE_OF_CONDUCT.md", resolves)])), FactsOf(dir);
    CodeOfConductChangesOneFact(dir, resolves);
    CodeOfConductFactIgnored(path, g, f.codeOfConduct);
  }

  /** Of all the facts, a new "CODE_OF_CONDUCT.md" child can change only the
      code-of-conduct fact. */
  lemma CodeOfConductChangesOneFact(dir: Dir, resolves: bool)
    ensures var f := FactsOf(dir.(entries := dir.entries + [Entry("CODE_OF_CONDUCT.md", resolves)]));
            f == FactsOf(dir).(codeOfConduct := f.codeOfConduct)
  {
    var coc := Entry("CODE_OF_CONDUCT.md", resolves);
    ExtensionIsLastPart("CODE_OF_CONDUCT", "md");
    assert "CODE_OF_CONDUCT" + "." + "md" == coc.name;
    PushUnrelated(dir, coc, Exact("Cargo.toml"));
    PushUnrelated(dir, coc, AnyWithExtension("adb"));
    PushUnrelated(dir, coc, AnyWithExtension("ads"));
    PushUnrelated(dir, coc, Exact("mix.exs"));
    PushUnrelated(dir, coc, AnyWithExtension("py"));
    PushUnrelated(dir, coc, AnyWithExtension("ncl"));
    PushUnrelated(dir, coc, Exact("Justfile"));
    PushUnrelated(dir, coc, Exact("justfile"));
    PushUnrelated(dir, coc, AnyWithExtension("yaml"));
    PushUnrelated(dir, coc, AnyWithExtension("yml"));
    PushUnrelated(dir, coc, AnyWithExtension("adoc"));
    PushUnrelated(dir, coc, Exact("void.ttl"));
    PushUnrelated(dir, coc, Exact("LICENSE"));
    PushUnrelated(dir, coc, Exact("CONTRIBUTING.md"));
    PushUnrelated(dir, coc, Exact("README.adoc"));
    PushUnrelated(dir, coc, Exact("Makefile"));
  }

  /** The audit never reads the code-of-conduct fact. */
  lemma CodeOfConductFactIgnored(path: string, f: Facts, present: bool)
    ensures AuditOf(path, f.(codeOfConduct := present)) == AuditOf(path, f)
  {
    var g := f.(codeOfConduct := present);
    BadgesIgnoreConduct(f, g);
    ListsIgnoreConduct(f, g);
  }

  /** The badges do not read the code-of-conduct fact. */
  lemma BadgesIgnoreConduct(f: Facts, g: Facts)
    requires g == f.(codeOfConduct := g.codeOfConduct)
    ensures BadgesOf(g) == BadgesOf(f)
  {
  }

  /** Neither list reads the code-of-conduct fact. */
  lemma ListsIgnoreConduct(f: Facts, g: Facts)
    requires g == f.(codeOfConduct := g.codeOfConduct)
    ensures MissingOf(g) == MissingOf(f) && ForbiddenOf(g) == ForbiddenOf(f)
  {
  }
}
