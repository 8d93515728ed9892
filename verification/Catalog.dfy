/** The registry catalog of internal/registry/catalog.go: validation, order and lookup. */
module Catalog {
  import opened Bytes
  import opened Outcomes
  import opened Orders
  import opened Texts
  import opened Sorting
  import opened Versions
  import opened Decimals
  import Archive

  datatype Release = Release(version: Text, path: Text, yanked: bool)
  datatype Package = Package(namespace: Text, name: Text, description: Text, versions: seq<Release>)
  datatype Index = Index(protocol: Text, packageFormat: Text, packages: seq<Package>)
  datatype Registry = Registry(index: Index, packageById: map<Text, Package>)

  datatype Fault =
    | UnsupportedFormat
    | InvalidIdentity(id: Text)
    | DuplicatePackage(id: Text)
    | BadVersion(id: Text)
    | BadPath(id: Text, version: Text)

  const PROTOCOL: Text := Ascii("v1")
  const FORMAT: Text := Ascii("nqpkg-1")
  const PACKAGES: Text := Ascii("packages")

  predicate LowerAlnum(c: Byte) {
    IsDigit(c) || 97 <= c <= 122
  }

  predicate IsIdentity(s: Text) {
    s != [] && LowerAlnum(s[0]) && forall i :: 0 <= i < |s| ==> LowerAlnum(s[i]) || s[i] == HYPHEN
  }

  function Id(p: Package): Text {
    p.namespace + [SLASH] + p.name
  }

  function ReleasePath(p: Package, version: Text): Text {
    PACKAGES + [SLASH] + Id(p) + [SLASH] + version
  }

  // ------------------------------------------------------------- validation

  /** The first release that is refused, given the version texts already seen. */
  function VersionFault(p: Package, seen: set<Text>, releases: seq<Release>): Option<Fault>
    decreases |releases|
  {
    if releases == [] then None
    else
      var r := releases[0];
      if !IsVersion(r.version) || r.version in seen then Some(BadVersion(Id(p)))
      else if r.path != ReleasePath(p, r.version) then Some(BadPath(Id(p), r.version))
      else VersionFault(p, seen + {r.version}, releases[1..])
  }

  function PackageFault(known: set<Text>, p: Package): Option<Fault> {
    if !IsIdentity(p.namespace) || !IsIdentity(p.name) then Some(InvalidIdentity(Id(p)))
    else if Id(p) in known then Some(DuplicatePackage(Id(p)))
    else VersionFault(p, {}, p.versions)
  }

  function FirstFault(known: set<Text>, packages: seq<Package>): Option<Fault>
    decreases |packages|
  {
    if packages == [] then None
    else
      var fault := PackageFault(known, packages[0]);
      if fault.Some? then fault else FirstFault(known + {Id(packages[0])}, packages[1..])
  }

  // ------------------------------------------------------- order and lookup

  /** The test that Open gives to the sort: the later of two versions precedes the
      other.  Texts that are not versions are not compared. */
  predicate Precedes(a: Release, b: Release) {
    |Core(a.version)| >= 3 && |Core(b.version)| >= 3 && Compare(a.version, b.version) > 0
  }

  /** All that the sort can learn from that test: latest first, and whatever it does not
      tell apart ties. */
  function CompareReleases(a: Release, b: Release): int {
    if Precedes(a, b) then -1 else if Precedes(b, a) then 1 else 0
  }

  function LatestFirst(p: Package): Package {
    p.(versions := StableSort(CompareReleases, p.versions))
  }

  function CompareIds(a: Package, b: Package): int {
    CompareBytes(Id(a), Id(b))
  }

  function Ordered(packages: seq<Package>): seq<Package> {
    seq(|packages|, i requires 0 <= i < |packages| => LatestFirst(packages[i]))
  }

  function ById(packages: seq<Package>): map<Text, Package> {
    if packages == [] then map[]
    else ById(packages[..|packages| - 1])[Id(packages[|packages| - 1]) := packages[|packages| - 1]]
  }

  /** What Open knows after `i` packages: those are ordered and looked up, the rest untouched. */
  ghost predicate Progress(all: seq<Package>, packages: seq<Package>, lookup: map<Text, Package>, i: nat) {
    && i <= |all| == |packages|
    && packages[..i] == Ordered(all[..i]) && packages[i..] == all[i..]
    && lookup == ById(Ordered(all[..i]))
    && FirstFault(lookup.Keys, all[i..]) == FirstFault({}, all)
  }

  lemma ProgressStart(all: seq<Package>)
    ensures Progress(all, all, map[], 0)
  {
    assert all[0..] == all;
    var none: map<Text, Package> := map[];
    assert none.Keys == {};
  }

  lemma ProgressStep(all: seq<Package>, packages: seq<Package>, lookup: map<Text, Package>, i: nat)
    requires Progress(all, packages, lookup, i) && i < |all|
    ensures packages[i] == all[i]
    ensures PackageFault(lookup.Keys, all[i]).Some? ==> FirstFault({}, all) == PackageFault(lookup.Keys, all[i])
    ensures PackageFault(lookup.Keys, all[i]).None? ==>
      Progress(all, packages[i := LatestFirst(all[i])], lookup[Id(all[i]) := LatestFirst(all[i])], i + 1)
  {
    hide StableSort, PackageFault, ById, Ordered;
    var p := LatestFirst(all[i]);
    assert packages[i] == packages[i..][0] && all[i..][1..] == all[i + 1..];
    OrderedExtends(all, i);
    ByIdExtends(Ordered(all[..i]), p);
    assert packages[i := p][..i + 1] == packages[..i] + [p];
    assert packages[i := p][i + 1..] == packages[i..][1..];
    assert lookup[Id(p) := p].Keys == lookup.Keys + {Id(all[i])};
  }

  lemma OrderedExtends(all: seq<Package>, i: nat)
    requires i < |all|
    ensures Ordered(all[..i + 1]) == Ordered(all[..i]) + [LatestFirst(all[i])]
  {
  }

  lemma ByIdExtends(packages: seq<Package>, p: Package)
    ensures ById(packages + [p]) == ById(packages)[Id(p) := p]
  {
    assert (packages + [p])[..|packages|] == packages;
  }

  /** No two clashes in a row lead to a release that precedes another. */
  ghost predicate ClashesAreTransitive(releases: seq<Release>) {
    forall a, b, c ::
      a in releases && b in releases && c in releases && Clash(a.version, b.version) && Clash(b.version, c.version) ==>
      Main(a.version) == Main(c.version) || Clash(a.version, c.version)
  }

  /** The packages with the releases of each in another order: latest first, if their clashes are transitive. */
  ghost predicate Rearranged(given: seq<Package>, packages: seq<Package>) {
    && |packages| == |given|
    && forall i :: 0 <= i < |given| ==>
         && packages[i] == given[i].(versions := packages[i].versions)
         && multiset(packages[i].versions) == multiset(given[i].versions)
         && (ClashesAreTransitive(given[i].versions) ==> packages[i] == LatestFirst(given[i]))
  }

  /** A registry over such packages: sorted by id in the list, and each under its id in the map. */
  ghost predicate IsRegistryOf(index: Index, registry: Registry) {
    exists packages :: Rearranged(index.packages, packages) && registry == Listing(index, packages)
  }

  function Listing(index: Index, packages: seq<Package>): Registry {
    Registry(index.(packages := StableSort(CompareIds, packages)), ById(packages))
  }

  lemma OpenedIsRegistry(index: Index)
    ensures IsRegistryOf(index, Opened(index))
  {
    hide StableSort, ById;
    var packages := Ordered(index.packages);
    forall i | 0 <= i < |packages| ensures multiset(packages[i].versions) == multiset(index.packages[i].versions) {
      SortPermutes(CompareReleases, index.packages[i].versions);
    }
    assert Rearranged(index.packages, packages);
  }

  /** An index in which the clashes of each package are transitive has one registry. */
  lemma RegistryIsUniqueIf(index: Index, registry: Registry)
    requires IsRegistryOf(index, registry) && forall p :: p in index.packages ==> ClashesAreTransitive(p.versions)
    ensures registry == Opened(index)
  {
    hide StableSort, ById, ClashesAreTransitive;
    var packages :| Rearranged(index.packages, packages) && registry == Listing(index, packages);
    assert forall i :: 0 <= i < |packages| ==> index.packages[i] in index.packages;
    assert packages == Ordered(index.packages);
  }

  /** Open, after the index file has been read and decoded.  Where the clashes of a package are
      not transitive, nothing is promised of the order of its releases. */
  method Open(index: Index) returns (r: Result<Registry, Fault>)
    ensures index.protocol != PROTOCOL || index.packageFormat != FORMAT ==> r == Err(UnsupportedFormat)
    ensures index.protocol == PROTOCOL && index.packageFormat == FORMAT ==>
      match FirstFault({}, index.packages)
      case Some(fault) => r == Err(fault)
      case None => r.Ok? && IsRegistryOf(index, r.value)
    ensures r.Ok? <==> IsGoodIndex(index)
  {
    hide StableSort, Progress, FirstFault, IsIdentity, IsRegistryOf, ById, IsGoodIndex;
    OpenedIsRegistry(index);
    GoodIndexIff(index);
    if index.protocol != PROTOCOL || index.packageFormat != FORMAT { return Err(UnsupportedFormat); }
    var packages := index.packages;
    var lookup: map<Text, Package> := map[];
    ghost var all := index.packages;
    ProgressStart(all);
    for i := 0 to |packages|
      invariant |packages| == |all| && Progress(all, packages, lookup, i)
    {
      ProgressStep(all, packages, lookup, i);
      var p := packages[i];
      var id := Id(p);
      if !IsIdentity(p.namespace) || !IsIdentity(p.name) { return Err(InvalidIdentity(id)); }
      if id in lookup { return Err(DuplicatePackage(id)); }
      var fault := CheckVersions(p);
      if fault.Some? { return Err(fault.value); }
      var sorted := LatestFirst(p);
      packages := packages[i := sorted];
      lookup := lookup[id := sorted];
    }
    ProgressEnd(all, packages, lookup);
    packages := StableSort(CompareIds, packages);
    return Ok(Registry(index.(packages := packages), lookup));
  }

  function Opened(index: Index): Registry {
    Listing(index, Ordered(index.packages))
  }

  lemma ProgressEnd(all: seq<Package>, packages: seq<Package>, lookup: map<Text, Package>)
    requires Progress(all, packages, lookup, |all|)
    ensures packages == Ordered(all) && lookup == ById(packages) && FirstFault({}, all).None?
  {
    assert all[..|all|] == all && packages[..|all|] == packages && all[|all|..] == [];
  }

  /** The inner loop of Open over a package's releases. */
  method CheckVersions(p: Package) returns (fault: Option<Fault>)
    ensures fault == VersionFault(p, {}, p.versions)
  {
    var seen: set<Text> := {};
    assert p.versions[0..] == p.versions;
    for i := 0 to |p.versions|
      invariant VersionFault(p, seen, p.versions[i..]) == VersionFault(p, {}, p.versions)
    {
      hide IsVersion;
      var v := p.versions[i];
      assert p.versions[i..][1..] == p.versions[i + 1..];
      if !IsVersion(v.version) || v.version in seen { return Some(BadVersion(Id(p))); }
      seen := seen + {v.version};
      var expected := ReleasePath(p, v.version);
      if v.path != expected { return Some(BadPath(Id(p), v.version)); }
    }
    return None;
  }

  // ------------------------------------------ what an accepted index is like

  predicate WellFormedPackage(p: Package) {
    && IsIdentity(p.namespace) && IsIdentity(p.name)
    && (forall i :: 0 <= i < |p.versions| ==> WellFormedRelease(p, p.versions[i]))
    && forall i, j :: 0 <= i < j < |p.versions| ==> p.versions[i].version != p.versions[j].version
  }

  predicate WellFormedRelease(p: Package, r: Release) {
    IsVersion(r.version) && r.path == ReleasePath(p, r.version)
  }

  predicate DistinctIds(packages: seq<Package>) {
    forall i, j :: 0 <= i < j < |packages| ==> Id(packages[i]) != Id(packages[j])
  }

  predicate ReleasesAreGood(p: Package, seen: set<Text>, releases: seq<Release>) {
    && (forall i :: 0 <= i < |releases| ==> WellFormedRelease(p, releases[i]) && releases[i].version !in seen)
    && forall i, j :: 0 <= i < j < |releases| ==> releases[i].version != releases[j].version
  }

  lemma GoodReleasesCons(p: Package, seen: set<Text>, r: Release, rest: seq<Release>)
    ensures ReleasesAreGood(p, seen, [r] + rest) <==>
      WellFormedRelease(p, r) && r.version !in seen && ReleasesAreGood(p, seen + {r.version}, rest)
  {
    hide IsVersion;
    var all := [r] + rest;
    assert forall i :: 0 <= i < |rest| ==> all[i + 1] == rest[i];
    if ReleasesAreGood(p, seen, all) {
      assert WellFormedRelease(p, all[0]);
      forall i | 0 <= i < |rest| ensures WellFormedRelease(p, rest[i]) && rest[i].version !in seen + {r.version} {
        assert WellFormedRelease(p, all[i + 1]) && all[0].version != all[i + 1].version;
      }
      forall i, j | 0 <= i < j < |rest| ensures rest[i].version != rest[j].version {
        assert all[i + 1].version != all[j + 1].version;
      }
    }
  }

  lemma {:induction false} NoVersionFault(p: Package, seen: set<Text>, releases: seq<Release>)
    ensures VersionFault(p, seen, releases).None? <==> ReleasesAreGood(p, seen, releases)
    decreases |releases|
  {
    hide IsVersion, ReleasesAreGood;
    if releases == [] {
      assert ReleasesAreGood(p, seen, releases) by { NothingIsGood(p, seen); }
    } else {
      NoVersionFault(p, seen + {releases[0].version}, releases[1..]);
      GoodReleasesCons(p, seen, releases[0], releases[1..]);
      assert releases == [releases[0]] + releases[1..];
    }
  }

  lemma NothingIsGood(p: Package, seen: set<Text>)
    ensures ReleasesAreGood(p, seen, [])
  {
  }

  predicate WellFormedFrom(known: set<Text>, packages: seq<Package>) {
    && (forall i :: 0 <= i < |packages| ==> WellFormedPackage(packages[i]) && Id(packages[i]) !in known)
    && DistinctIds(packages)
  }

  lemma GoodPackagesCons(known: set<Text>, p: Package, rest: seq<Package>)
    ensures WellFormedFrom(known, [p] + rest) <==>
      WellFormedPackage(p) && Id(p) !in known && WellFormedFrom(known + {Id(p)}, rest)
  {
    hide WellFormedPackage;
    var all := [p] + rest;
    assert forall i :: 0 <= i < |rest| ==> all[i + 1] == rest[i];
    if WellFormedFrom(known, all) {
      assert WellFormedPackage(all[0]);
      forall i | 0 <= i < |rest| ensures WellFormedPackage(rest[i]) && Id(rest[i]) !in known + {Id(p)} {
        assert WellFormedPackage(all[i + 1]) && Id(all[0]) != Id(all[i + 1]);
      }
      forall i, j | 0 <= i < j < |rest| ensures Id(rest[i]) != Id(rest[j]) {
        assert Id(all[i + 1]) != Id(all[j + 1]);
      }
    }
  }

  lemma NoPackageFault(known: set<Text>, p: Package)
    ensures PackageFault(known, p).None? <==> WellFormedPackage(p) && Id(p) !in known
  {
    NoVersionFault(p, {}, p.versions);
  }

  /** Open refuses nothing exactly when every package is well formed and no two share an id. */
  lemma {:induction false} NoFaultIff(known: set<Text>, packages: seq<Package>)
    ensures FirstFault(known, packages).None? <==> WellFormedFrom(known, packages)
    decreases |packages|
  {
    if packages != [] {
      hide WellFormedFrom, WellFormedPackage, PackageFault;
      var p, rest := packages[0], packages[1..];
      NoPackageFault(known, p);
      NoFaultIff(known + {Id(p)}, rest);
      GoodPackagesCons(known, p, rest);
      assert packages == [p] + rest;
    }
  }

  // ------------------------------------------- the same in the patterns' terms

  predicate IsWord(s: Text) {
    forall i :: 0 <= i < |s| ==> 48 <= s[i] <= 57 || 97 <= s[i] <= 122
  }

  /** Digits and small letters, in words divided by hyphens, the first of which is not empty. */
  predicate AreWords(words: seq<Text>) {
    words != [] && words[0] != [] && forall i :: 0 <= i < |words| ==> IsWord(words[i])
  }

  /** A name is words joined by hyphens, and does not begin with one. */
  lemma IdentityIff(s: Text)
    ensures IsIdentity(s) <==> AreWords(Split(s, 45))
  {
    hide IndexOf, Split;
    var words := Split(s, HYPHEN);
    JoinSplit(s, HYPHEN);
    FirstWord(s);
    if AreWords(words) {
      forall i | 0 <= i < |s| ensures LowerAlnum(s[i]) || s[i] == HYPHEN {
        JoinMembers(words, HYPHEN, s[i]);
      }
    }
    if IsIdentity(s) {
      forall i, k | 0 <= i < |words| && 0 <= k < |words[i]| ensures LowerAlnum(words[i][k]) {
        JoinMembers(words, HYPHEN, words[i][k]);
        assert words[i][k] in words[i];
      }
    }
  }

  lemma FirstWord(s: Text)
    ensures Split(s, HYPHEN)[0] == Before(s, HYPHEN)
    ensures Before(s, HYPHEN) == [] <==> s == [] || s[0] == HYPHEN
    ensures s != [] && s[0] != HYPHEN ==> Before(s, HYPHEN)[0] == s[0]
  {
  }

  /** What an index must be to be opened, in the terms of its format. */
  ghost predicate IsGoodIndex(index: Index) {
    && index.protocol == Ascii("v1") && index.packageFormat == Ascii("nqpkg-1")
    && (forall p :: p in index.packages ==>
          AreWords(Split(p.namespace, 45)) && AreWords(Split(p.name, 45)) && AreGoodReleases(p))
    && forall i, j :: 0 <= i < j < |index.packages| ==>
         index.packages[i].namespace != index.packages[j].namespace || index.packages[i].name != index.packages[j].name
  }

  ghost predicate AreGoodReleases(p: Package) {
    && (forall r :: r in p.versions ==>
          && MatchesPattern(r.version)
          && r.path == Ascii("packages/") + p.namespace + Ascii("/") + p.name + Ascii("/") + r.version)
    && forall i, j :: 0 <= i < j < |p.versions| ==> p.versions[i].version != p.versions[j].version
  }

  lemma PathSpelled(p: Package, version: Text)
    ensures ReleasePath(p, version) == Ascii("packages/") + p.namespace + Ascii("/") + p.name + Ascii("/") + version
  {
    assert Ascii("/") == [SLASH] && Ascii("packages/") == PACKAGES + [SLASH];
    var all := PACKAGES + [SLASH] + Id(p) + [SLASH] + version;
    assert all == PACKAGES + [SLASH] + p.namespace + [SLASH] + p.name + [SLASH] + version;
  }

  lemma PackageIff(p: Package)
    ensures WellFormedPackage(p) <==>
      AreWords(Split(p.namespace, 45)) && AreWords(Split(p.name, 45)) && AreGoodReleases(p)
  {
    hide IsVersion, MatchesPattern, IsIdentity, AreWords, Split, ReleasePath;
    IdentityIff(p.namespace);
    IdentityIff(p.name);
    forall r: Release
      ensures WellFormedRelease(p, r) <==>
        && MatchesPattern(r.version)
        && r.path == Ascii("packages/") + p.namespace + Ascii("/") + p.name + Ascii("/") + r.version
    {
      VersionIff(r.version);
      PathSpelled(p, r.version);
    }
    assert forall i :: 0 <= i < |p.versions| ==> p.versions[i] in p.versions;
  }

  /** An index is opened exactly when it is good. */
  lemma GoodIndexIff(index: Index)
    ensures IsGoodIndex(index) <==>
      index.protocol == PROTOCOL && index.packageFormat == FORMAT && FirstFault({}, index.packages).None?
  {
    hide AreGoodReleases, AreWords, Split, FirstFault, WellFormedPackage;
    NoFaultIff({}, index.packages);
    forall p | p in index.packages
      ensures WellFormedPackage(p) <==>
        AreWords(Split(p.namespace, 45)) && AreWords(Split(p.name, 45)) && AreGoodReleases(p)
      ensures WellFormedPackage(p) ==> IsIdentity(p.namespace)
    {
      PackageIff(p);
      if WellFormedPackage(p) { NamesOf(p); }
    }
    assert forall i :: 0 <= i < |index.packages| ==> index.packages[i] in index.packages;
    if forall p :: p in index.packages ==> IsIdentity(p.namespace) {
      forall i, j | 0 <= i < j < |index.packages|
        ensures Id(index.packages[i]) == Id(index.packages[j]) <==>
          index.packages[i].namespace == index.packages[j].namespace && index.packages[i].name == index.packages[j].name
      {
        if Id(index.packages[i]) == Id(index.packages[j]) { IdsAreInjective(index.packages[i], index.packages[j]); }
      }
    }
  }

  lemma NamesOf(p: Package)
    requires WellFormedPackage(p)
    ensures IsIdentity(p.namespace)
  {
  }

  // ------------------------------------------------- which fault is reported

  function Ids(packages: seq<Package>): set<Text> {
    set p | p in packages :: Id(p)
  }

  /** The fault is the release's, given the version texts before it. */
  predicate BlamesRelease(p: Package, seen: set<Text>, r: Release, fault: Fault) {
    match fault
    case BadVersion(id) => id == Id(p) && (!IsVersion(r.version) || r.version in seen)
    case BadPath(id, version) =>
      && id == Id(p) && version == r.version && IsVersion(r.version) && r.version !in seen
      && r.path != ReleasePath(p, r.version)
    case _ => false
  }

  function Seen(releases: seq<Release>): set<Text> {
    set r | r in releases :: r.version
  }

  /** The fault is the package's, given the ids before it: a name of the wrong form, an id
      that was there already, or the first release that is at fault. */
  ghost predicate BlamesPackage(known: set<Text>, p: Package, fault: Fault) {
    match fault
    case UnsupportedFormat => false
    case InvalidIdentity(id) => id == Id(p) && !(IsIdentity(p.namespace) && IsIdentity(p.name))
    case DuplicatePackage(id) => id == Id(p) && IsIdentity(p.namespace) && IsIdentity(p.name) && id in known
    case _ =>
      && IsIdentity(p.namespace) && IsIdentity(p.name) && Id(p) !in known
      && exists k :: 0 <= k < |p.versions| && BlamedAt(p, {}, p.versions, k, fault)
  }

  ghost predicate BlamedAt(p: Package, seen: set<Text>, releases: seq<Release>, k: nat, fault: Fault)
    requires k < |releases|
  {
    && ReleasesAreGood(p, seen, releases[..k])
    && BlamesRelease(p, seen + Seen(releases[..k]), releases[k], fault)
  }

  lemma {:induction false} FirstReleaseIsBlamed(p: Package, seen: set<Text>, releases: seq<Release>) returns (k: nat)
    requires VersionFault(p, seen, releases).Some?
    ensures k < |releases| && BlamedAt(p, seen, releases, k, VersionFault(p, seen, releases).value)
    decreases |releases|
  {
    hide IsVersion, ReleasesAreGood;
    var r := releases[0];
    if !IsVersion(r.version) || r.version in seen || r.path != ReleasePath(p, r.version) {
      k := 0;
      NothingIsGood(p, seen);
      assert releases[..0] == [] && seen + Seen([]) == seen;
    } else {
      var j := FirstReleaseIsBlamed(p, seen + {r.version}, releases[1..]);
      k := j + 1;
      assert releases[..k] == [r] + releases[1..][..j];
      GoodReleasesCons(p, seen, r, releases[1..][..j]);
      assert seen + Seen(releases[..k]) == seen + {r.version} + Seen(releases[1..][..j]);
    }
  }

  lemma PackageIsBlamed(known: set<Text>, p: Package)
    requires PackageFault(known, p).Some?
    ensures BlamesPackage(known, p, PackageFault(known, p).value)
  {
    hide IsIdentity, BlamedAt;
    if IsIdentity(p.namespace) && IsIdentity(p.name) && Id(p) !in known {
      var k := FirstReleaseIsBlamed(p, {}, p.versions);
      FaultIsOfRelease(p, {}, p.versions);
    }
  }

  lemma {:induction false} FaultIsOfRelease(p: Package, seen: set<Text>, releases: seq<Release>)
    requires VersionFault(p, seen, releases).Some?
    ensures var fault := VersionFault(p, seen, releases).value; fault.BadVersion? || fault.BadPath?
    decreases |releases|
  {
    hide IsVersion;
    var r := releases[0];
    if !(!IsVersion(r.version) || r.version in seen || r.path != ReleasePath(p, r.version)) {
      FaultIsOfRelease(p, seen + {r.version}, releases[1..]);
    }
  }

  /** The fault reported is the first package's that is at fault; those before it are good. */
  lemma {:induction false} FirstFaultBlames(known: set<Text>, packages: seq<Package>) returns (k: nat)
    requires FirstFault(known, packages).Some?
    ensures k < |packages| && WellFormedFrom(known, packages[..k])
    ensures BlamesPackage(known + Ids(packages[..k]), packages[k], FirstFault(known, packages).value)
    decreases |packages|
  {
    hide PackageFault, BlamesPackage, WellFormedFrom, WellFormedPackage;
    var p, rest := packages[0], packages[1..];
    if PackageFault(known, p).Some? {
      k := 0;
      NoFaultIff(known, []);
      PackageIsBlamed(known, p);
      assert packages[..0] == [] && known + Ids([]) == known;
    } else {
      var j := FirstFaultBlames(known + {Id(p)}, rest);
      k := j + 1;
      assert packages[..k] == [p] + rest[..j];
      NoPackageFault(known, p);
      GoodPackagesCons(known, p, rest[..j]);
      assert known + Ids(packages[..k]) == known + {Id(p)} + Ids(rest[..j]);
    }
  }

  // ------------------------------------------------------------- identities

  lemma IdentityHasNoSlash(s: Text)
    requires IsIdentity(s)
    ensures SLASH !in s && DOT !in s
  {
  }

  /** Ids are injective in the pair of names. */
  lemma IdsAreInjective(p: Package, q: Package)
    requires IsIdentity(p.namespace) && IsIdentity(q.namespace) && Id(p) == Id(q)
    ensures p.namespace == q.namespace && p.name == q.name
  {
    IdentityHasNoSlash(p.namespace);
    IdentityHasNoSlash(q.namespace);
    CutAt(p.namespace, SLASH, p.name);
    CutAt(q.namespace, SLASH, q.name);
  }

  /** Release paths are injective in namespace, name and version. */
  lemma PathsAreInjective(p: Package, v: Text, q: Package, w: Text)
    requires WellFormedPackage(p) && WellFormedPackage(q) && ReleasePath(p, v) == ReleasePath(q, w)
    ensures p.namespace == q.namespace && p.name == q.name && v == w
  {
    IdentityHasNoSlash(p.namespace);
    IdentityHasNoSlash(q.namespace);
    IdentityHasNoSlash(p.name);
    IdentityHasNoSlash(q.name);
    PathTail(p, v);
    PathTail(q, w);
  }

  lemma PathTail(p: Package, v: Text)
    requires SLASH !in p.namespace && SLASH !in p.name
    ensures var tail := After(ReleasePath(p, v), SLASH);
      && SLASH in ReleasePath(p, v) && SLASH in tail && Before(tail, SLASH) == p.namespace
      && SLASH in After(tail, SLASH)
      && Before(After(tail, SLASH), SLASH) == p.name && After(After(tail, SLASH), SLASH) == v
  {
    hide IndexOf;
    var inner := p.name + [SLASH] + v;
    var tail := p.namespace + [SLASH] + inner;
    assert ReleasePath(p, v) == PACKAGES + [SLASH] + tail;
    assert SLASH !in PACKAGES;
    CutAt(PACKAGES, SLASH, tail);
    CutAt(p.namespace, SLASH, inner);
    CutAt(p.name, SLASH, v);
  }

  // ---------------------------------------------------- what Open returns

  /** The first package with the given id. */
  function Search(packages: seq<Package>, id: Text): Option<Package> {
    if packages == [] then None
    else if Id(packages[0]) == id then Some(packages[0])
    else Search(packages[1..], id)
  }

  lemma {:induction false} ByIdHolds(packages: seq<Package>, id: Text)
    requires DistinctIds(packages)
    ensures id in ById(packages) <==> exists i :: 0 <= i < |packages| && Id(packages[i]) == id
    ensures forall i :: 0 <= i < |packages| && Id(packages[i]) == id ==> ById(packages)[id] == packages[i]
    decreases |packages|
  {
    if packages != [] {
      var init := packages[..|packages| - 1];
      ByIdHolds(init, id);
      assert forall i :: 0 <= i < |init| ==> init[i] == packages[i];
      if exists i :: 0 <= i < |packages| && Id(packages[i]) == id {
        var i :| 0 <= i < |packages| && Id(packages[i]) == id;
        assert i < |init| ==> Id(init[i]) == id;
      }
    }
  }

  lemma {:induction false} SearchFinds(packages: seq<Package>, id: Text)
    ensures Search(packages, id).None? <==> forall i :: 0 <= i < |packages| ==> Id(packages[i]) != id
    ensures Search(packages, id).Some? ==>
      Search(packages, id).value in packages && Id(Search(packages, id).value) == id
  {
    if packages != [] {
      SearchFinds(packages[1..], id);
      assert packages == [packages[0]] + packages[1..];
    }
  }

  lemma DistinctIdsRearranged(given: seq<Package>, packages: seq<Package>)
    requires DistinctIds(given) && Rearranged(given, packages)
    ensures DistinctIds(packages)
  {
    assert forall i :: 0 <= i < |given| ==> Id(packages[i]) == Id(given[i]);
  }

  /** The map and the list of a catalog that opened say the same about every id. */
  lemma LookupAgreesWithList(index: Index, registry: Registry, id: Text)
    requires FirstFault({}, index.packages).None? && IsRegistryOf(index, registry)
    ensures id in registry.packageById <==> Search(registry.index.packages, id).Some?
    ensures id in registry.packageById ==> Search(registry.index.packages, id) == Some(registry.packageById[id])
  {
    hide StableSort, ById, FirstFault, Rearranged;
    NoFaultIff({}, index.packages);
    var ordered :| Rearranged(index.packages, ordered) && registry == Listing(index, ordered);
    var listed := StableSort(CompareIds, ordered);
    DistinctIdsRearranged(index.packages, ordered);
    ByIdHolds(ordered, id);
    SearchFinds(listed, id);
    SortPermutes(CompareIds, ordered);
    SameMembers(ordered, listed);
    if Search(listed, id).Some? {
      var p := Search(listed, id).value;
      var i :| 0 <= i < |ordered| && ordered[i] == p;
    }
    if id in ById(ordered) {
      var i :| 0 <= i < |ordered| && Id(ordered[i]) == id;
      assert ordered[i] in ordered;
      var j :| 0 <= j < |listed| && listed[j] == ordered[i];
    }
  }

  lemma SameMembers<T>(s: seq<T>, t: seq<T>)
    requires multiset(s) == multiset(t)
    ensures forall x :: x in s <==> x in t
  {
    forall x ensures x in s <==> x in t {
      assert x in s <==> x in multiset(s);
      assert x in t <==> x in multiset(t);
    }
  }

  lemma IdsRank()
    ensures Ranks(CompareIds, (p: Package) => true)
  {
    forall a: Package, b: Package, c: Package
      ensures CompareIds(a, b) <= 0 || CompareIds(b, a) <= 0
      ensures CompareIds(a, b) == 0 <==> CompareIds(a, b) <= 0 && CompareIds(b, a) <= 0
      ensures CompareIds(a, b) <= 0 && CompareIds(b, c) <= 0 ==> CompareIds(a, c) <= 0
    {
      CompareBytesOrdered(Id(a), Id(b), Id(c));
    }
  }

  /** The listed packages are the given ones, each with its releases reordered, by increasing id. */
  lemma PackagesAreListedById(index: Index, registry: Registry)
    requires FirstFault({}, index.packages).None? && IsRegistryOf(index, registry)
    ensures var listed := registry.index.packages;
      && (exists packages :: Rearranged(index.packages, packages) && multiset(listed) == multiset(packages))
      && forall i, j :: 0 <= i < j < |listed| ==> CompareBytes(Id(listed[i]), Id(listed[j])) < 0
  {
    hide StableSort, FirstFault, ById, Rearranged;
    NoFaultIff({}, index.packages);
    var ordered :| Rearranged(index.packages, ordered) && registry == Listing(index, ordered);
    DistinctIdsRearranged(index.packages, ordered);
    IdsRank();
    SortPermutes(CompareIds, ordered);
    forall i, j | 0 <= i < j < |ordered| ensures CompareIds(ordered[i], ordered[j]) != 0 {
      CompareBytesOrdered(Id(ordered[i]), Id(ordered[j]), Id(ordered[j]));
    }
    SortIsStrict(CompareIds, (p: Package) => true, ordered);
    forall i, j | 0 <= i < j < |registry.index.packages|
      ensures CompareBytes(Id(registry.index.packages[i]), Id(registry.index.packages[j])) < 0
    {
      assert CompareIds(registry.index.packages[i], registry.index.packages[j]) < 0;
    }
  }

  ghost predicate AllVersions(releases: seq<Release>) {
    forall r :: r in releases ==> IsVersion(r.version)
  }

  lemma ReleasesCompare(a: Release, b: Release, c: Release)
    requires IsVersion(a.version) && IsVersion(b.version) && IsVersion(c.version)
    ensures CompareReleases(a, b) == -CompareReleases(b, a)
    ensures CompareReleases(a, b) < 0 && CompareReleases(b, c) < 0 ==> CompareReleases(a, c) < 0
    ensures CompareReleases(a, b) == 0 <==> Main(a.version) == Main(b.version) || Clash(a.version, b.version)
  {
    hide IsVersion, Clash, Core, Compare;
    VersionHasCore(a.version);
    VersionHasCore(b.version);
    VersionHasCore(c.version);
    LaterIsStrictOrder(a.version, b.version, c.version);
    LaterIsStrictOrder(b.version, a.version, c.version);
  }

  /** Ties are transitive where clashes are. */
  lemma ThreeTie(releases: seq<Release>, a: Release, b: Release, c: Release)
    requires AllVersions(releases) && ClashesAreTransitive(releases)
    requires a in releases && b in releases && c in releases
    requires CompareReleases(a, b) == 0 && CompareReleases(b, c) == 0
    ensures CompareReleases(a, c) == 0
  {
    hide IsVersion, Clash, Core, Compare, CompareReleases;
    VersionHasCore(a.version);
    VersionHasCore(b.version);
    VersionHasCore(c.version);
    ReleasesCompare(a, b, c);
    ReleasesCompare(b, c, a);
    ReleasesCompare(a, c, b);
    if Main(a.version) == Main(b.version) { SameMainComparesAlike(a.version, b.version, c.version); }
    if Main(b.version) == Main(c.version) { SameMainComparesAlike(b.version, c.version, a.version); }
  }

  lemma ThreeRank(releases: seq<Release>, a: Release, b: Release, c: Release)
    requires AllVersions(releases) && ClashesAreTransitive(releases)
    requires a in releases && b in releases && c in releases
    requires CompareReleases(a, b) <= 0 && CompareReleases(b, c) <= 0
    ensures CompareReleases(a, c) <= 0
  {
    hide IsVersion, Clash, CompareReleases, ClashesAreTransitive;
    ReleasesCompare(a, b, c);
    ReleasesCompare(b, c, a);
    ReleasesCompare(c, a, b);
    if CompareReleases(a, b) == 0 == CompareReleases(b, c) { ThreeTie(releases, a, b, c); }
  }

  /** What Open relies on in order to sort: its test ranks exactly those lists of admitted
      releases whose clashes are transitive. */
  lemma ReleasesRankIff(releases: seq<Release>)
    requires AllVersions(releases)
    ensures Ranks(CompareReleases, (r: Release) => r in releases) <==> ClashesAreTransitive(releases)
  {
    hide IsVersion, Clash, CompareReleases, Main;
    var within := (r: Release) => r in releases;
    if ClashesAreTransitive(releases) {
      hide ClashesAreTransitive;
      forall a, b, c | a in releases && b in releases && c in releases
        ensures CompareReleases(a, b) == -CompareReleases(b, a)
        ensures CompareReleases(a, b) <= 0 && CompareReleases(b, c) <= 0 ==> CompareReleases(a, c) <= 0
      {
        ReleasesCompare(a, b, c);
        if CompareReleases(a, b) <= 0 && CompareReleases(b, c) <= 0 { ThreeRank(releases, a, b, c); }
      }
    }
    if Ranks(CompareReleases, within) {
      forall a, b, c |
        a in releases && b in releases && c in releases && Clash(a.version, b.version) && Clash(b.version, c.version)
        ensures Main(a.version) == Main(c.version) || Clash(a.version, c.version)
      {
        ReleasesCompare(a, b, c);
        ReleasesCompare(b, c, a);
        ReleasesCompare(a, c, b);
        assert within(a) && within(b) && within(c);
      }
    }
  }

  /** Given releases in falling order, those that tie in the order they were given. */
  ghost predicate IsLatestFirst(given: seq<Release>, sorted: seq<Release>) {
    && (forall r :: r in sorted ==> r in given) && Sorted(CompareReleases, sorted)
    && forall r :: r in given ==> TiesWith(CompareReleases, r, given) == TiesWith(CompareReleases, r, sorted)
  }

  /** Where clashes are transitive, a package's releases are its own, latest first, with
      ties (builds of one version, and spellings of one number) in the order given; and
      no other list is so. */
  lemma ReleasesAreLatestFirst(p: Package)
    requires AllVersions(p.versions) && ClashesAreTransitive(p.versions)
    ensures var sorted := LatestFirst(p).versions;
      && multiset(sorted) == multiset(p.versions)
      && IsLatestFirst(p.versions, sorted)
      && forall other :: IsLatestFirst(p.versions, other) ==> other == sorted
  {
    hide CompareReleases, ClashesAreTransitive, AllVersions, TiesWith, StableSort;
    var within := (r: Release) => r in p.versions;
    ReleasesRankIff(p.versions);
    SortPermutes(CompareReleases, p.versions);
    SortSorts(CompareReleases, within, p.versions);
    SortIsStable(CompareReleases, within, p.versions);
    var sorted := LatestFirst(p).versions;
    SameMembers(p.versions, sorted);
    forall other | IsLatestFirst(p.versions, other) ensures other == sorted {
      assert SameTies(CompareReleases, within, other, sorted);
      StableSortIsUnique(CompareReleases, within, other, sorted);
    }
  }

  // ------------------------------------- when the releases have no such order

  /** `a` before `b` before `c`, where `a` and `c` tie with `b` and yet `c` precedes `a`. */
  lemma NoOrder(given: seq<Release>, sorted: seq<Release>)
    requires |given| >= 3 && CompareReleases(given[0], given[2]) > 0
    requires CompareReleases(given[1], given[0]) == CompareReleases(given[1], given[2]) == 0
    ensures !IsLatestFirst(given, sorted)
  {
    hide CompareReleases;
    var ties := TiesWith(CompareReleases, given[1], given);
    var a, c := given[0], given[2];
    var tail := TiesWith(CompareReleases, given[1], given[1..]);
    assert given[1..][0] == given[1] && given[1..][1..] == given[2..];
    assert c == TiesWith(CompareReleases, given[1], given[2..])[0] && c in tail;
    assert ties == [a] + tail;
    var k :| 0 <= k < |tail| && tail[k] == c;
    if IsLatestFirst(given, sorted) {
      assert given[1] in given;
      TiesInOrder(CompareReleases, given[1], sorted, 0, k + 1);
    }
  }

  ghost predicate CanBeLatestFirst(given: seq<Release>) {
    exists sorted :: IsLatestFirst(given, sorted)
  }

  /** Admitted releases can be put latest first, with ties in order, in whatever order they
      are given, exactly when their clashes are transitive. */
  lemma LatestFirstExistsIff(releases: seq<Release>)
    requires AllVersions(releases)
    ensures (forall given :: multiset(given) == multiset(releases) ==> CanBeLatestFirst(given)) <==>
      ClashesAreTransitive(releases)
  {
    hide IsVersion, Clash, CompareReleases, Main, StableSort, IsLatestFirst;
    if ClashesAreTransitive(releases) {
      forall given | multiset(given) == multiset(releases) ensures CanBeLatestFirst(given) {
        SameMembers(given, releases);
        ReleasesAreLatestFirst(Package([], [], [], given));
      }
    } else {
      var a, b, c :| a in releases && b in releases && c in releases && Clash(a.version, b.version)
        && Clash(b.version, c.version) && Main(a.version) != Main(c.version) && !Clash(a.version, c.version);
      ReleasesCompare(a, b, c);
      ReleasesCompare(b, c, a);
      ReleasesCompare(a, c, b);
      var (first, last) := if CompareReleases(a, c) > 0 then (a, c) else (c, a);
      var given := ThreeToFront(releases, first, b, last);
      forall sorted ensures !IsLatestFirst(given, sorted) {
        NoOrder(given, sorted);
      }
      assert multiset(given) == multiset(releases) && !CanBeLatestFirst(given);
    }
  }

  /** The failing lists: a number, the number with one more zero, and the number followed
      by another identifier, as `1.0.0-1`, `1.0.0-01` and `1.0.0-1.a`.  Each of the first two
      ties with the second, and so does the third, which precedes the first. */
  lemma ThreeSpellingsHaveNoOrder(digits: Text, a: Release, b: Release, c: Release)
    requires IsCanonical(digits) && Value(digits) <= U64_MAX
    requires a.version == Versions.Assemble(ONE_ZERO_ZERO, [digits])
    requires b.version == Versions.Assemble(ONE_ZERO_ZERO, [[ZERO] + digits])
    requires c.version == Versions.Assemble(ONE_ZERO_ZERO, [digits, [97]])
    ensures AllVersions([a, b, c]) && !ClashesAreTransitive([a, b, c]) && !CanBeLatestFirst([a, b, c])
    ensures StableSort(CompareReleases, [a, b]) == [a, b]
  {
    hide IsVersion, Compare, CompareReleases, Main, Clash, Versions.Assemble, IsLatestFirst, StableSort;
    ThreeSpellings(digits);
    var given := [a, b, c];
    assert given[0] == a && given[1] == b && given[2] == c;
    ReleasesCompare(a, b, c);
    ReleasesCompare(b, c, a);
    LaterPrecedes(c, a);
    TwoTied(CompareReleases, a, b);
    forall sorted ensures !IsLatestFirst(given, sorted) {
      NoOrder(given, sorted);
    }
  }

  lemma LaterPrecedes(a: Release, b: Release)
    requires IsVersion(a.version) && IsVersion(b.version) && Compare(a.version, b.version) > 0
    ensures CompareReleases(a, b) == -1 && CompareReleases(b, a) == 1
  {
    hide IsVersion, Core, Compare;
    LaterIsStrictOrder(a.version, b.version, b.version);
    VersionHasCore(a.version);
    VersionHasCore(b.version);
  }

  predicate PathByte(b: Byte) {
    IdentifierByte(b) || b == PLUS
  }

  predicate AllPathBytes(s: Text) {
    forall i :: 0 <= i < |s| ==> PathByte(s[i])
  }

  lemma PathPartsAreProper(p: Package, v: Text)
    requires IsIdentity(p.namespace) && IsIdentity(p.name) && IsVersion(v)
    ensures Archive.AreNames([PACKAGES, p.namespace, p.name, v])
    ensures AllPathBytes(PACKAGES) && AllPathBytes(p.namespace) && AllPathBytes(p.name) && AllPathBytes(v)
  {
    hide IsVersion;
    VersionBytes(v);
    assert SLASH !in PACKAGES && Archive.SafeSegment(PACKAGES) && AllPathBytes(PACKAGES);
    IdentityHasNoSlash(p.namespace);
    IdentityHasNoSlash(p.name);
  }

  /** A release path of an accepted package is safe exactly when it is at most 100 bytes. */
  lemma ReleasePathIsSafeIff(p: Package, r: Release)
    requires WellFormedPackage(p) && r in p.versions
    ensures Archive.SafeRelative(r.path) <==> |r.path| <= 100
    ensures Archive.Cacheable(r.path) <==> |r.path| <= 100
  {
    hide IsVersion, IsIdentity, Archive.SafeRelative, Archive.SafeSegment, Join;
    var i :| 0 <= i < |p.versions| && p.versions[i] == r;
    assert WellFormedRelease(p, r);
    var parts := [PACKAGES, p.namespace, p.name, r.version];
    PathPartsAreProper(p, r.version);
    PathFromParts(p, r.version);
    Archive.SafeIsJoinOfNames(r.path);
    forall b: Byte | b in r.path ensures b == SLASH || PathByte(b) {
      JoinMembers(parts, SLASH, b);
      if b != SLASH {
        var k :| 0 <= k < |parts| && b in parts[k];
      }
    }
    assert Join(parts, SLASH) == r.path && Archive.AreNames(parts);
  }

  lemma PathFromParts(p: Package, v: Text)
    ensures Join([PACKAGES, p.namespace, p.name, v], SLASH) == ReleasePath(p, v)
  {
    var parts := [PACKAGES, p.namespace, p.name, v];
    assert parts[1..] == [p.namespace, p.name, v];
    assert parts[1..][1..] == [p.name, v] && parts[1..][1..][1..] == [v];
    assert Join(parts[1..][1..], SLASH) == p.name + [SLASH] + v;
    assert Join(parts[1..], SLASH) == p.namespace + [SLASH] + (p.name + [SLASH] + v);
  }

  /** A version text has only path bytes, and is no dot name. */
  lemma VersionBytes(v: Text)
    requires IsVersion(v)
    ensures AllPathBytes(v) && v != [] && v[0] != DOT
  {
    hide IndexOf, Split, IsVersion;
    var main := Main(v);
    CoreBytes(v);
    SuffixBytes(main, HYPHEN);
    SuffixBytes(v, PLUS);
  }

  lemma CoreBytes(v: Text)
    requires IsVersion(v)
    ensures var core := Before(Main(v), HYPHEN); AllPathBytes(core) && core != [] && core[0] != DOT
    ensures HYPHEN in Main(v) ==> AllPathBytes(After(Main(v), HYPHEN))
    ensures PLUS in v ==> AllPathBytes(After(v, PLUS))
  {
    hide IndexOf, Split;
    var core, fields := Before(Main(v), HYPHEN), Core(v);
    JoinSplit(core, DOT);
    assert IsCanonical(fields[0]) && IsCanonical(fields[1]) && IsCanonical(fields[2]);
    forall b: Byte | b in core ensures PathByte(b) {
      JoinMembers(fields, DOT, b);
    }
    assert core == fields[0] + [DOT] + Join(fields[1..], DOT);
  }

  lemma SuffixBytes(s: Text, c: Byte)
    requires PathByte(c) && AllPathBytes(Before(s, c)) && Before(s, c) != [] && Before(s, c)[0] != DOT
    requires c in s ==> AllPathBytes(After(s, c))
    ensures AllPathBytes(s) && s != [] && s[0] != DOT
  {
    if c in s { assert s == Before(s, c) + [c] + After(s, c); } else { assert s == Before(s, c); }
  }
}
