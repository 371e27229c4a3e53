/** The catalog view of src/app/vpm/page.tsx: one display record per package
    of the index, the category guessed from dependency names, the category
    and search filter, and the per-category counts of the filter buttons.
    Version entries are typed as the page's `PackageVersion` interface
    declares them; a JSON object is a sequence of (key, value) pairs in the
    order `Object.keys` and `Object.entries` list them. */
module VpmCatalog {
  import opened Options
  import opened Strings
  import opened NaturalOrder

  datatype Category = World | Avatar | Tool

  /** The category filter state: `'all'` or one category. */
  datatype CategoryFilter = All | Only(category: Category)

  /** The fields of a version entry the page reads; `vpmDependencies` is the
      list of keys of the dependency object. */
  datatype PackageVersion = PackageVersion(
    name: string,
    displayName: Option<string>,
    description: Option<string>,
    version: string,
    url: Option<string>,
    zipSHA256: Option<string>,
    vpmDependencies: Option<seq<string>>)

  /** A package's `versions` object: (version key, entry) pairs. */
  type VersionTable = seq<(string, PackageVersion)>

  /** One element of `allVersions`. */
  datatype VersionLink = VersionLink(version: string, url: Option<string>)

  /** The display record `PackageInfo` built for one package. */
  datatype PackageInfo = PackageInfo(
    name: string,
    displayName: string,
    description: string,
    version: string,
    category: Category,
    url: Option<string>,
    zipSHA256: Option<string>,
    vpmDependencies: Option<seq<string>>,
    allVersions: seq<VersionLink>)

  // ---------------------------------------------------------------------------
  // Category detection

  /** `keys.some(p)` */
  predicate AnyKey(keys: seq<string>, p: string -> bool)
    decreases |keys|
  {
    keys != [] && (p(keys[0]) || AnyKey(keys[1..], p))
  }

  lemma {:induction false} AnyKeyIff(keys: seq<string>, p: string -> bool)
    ensures AnyKey(keys, p) <==> exists i :: 0 <= i < |keys| && p(keys[i])
    decreases |keys|
  {
    if keys != [] {
      AnyKeyIff(keys[1..], p);
      if !p(keys[0]) && exists i :: 0 <= i < |keys| && p(keys[i]) {
        var i :| 0 <= i < |keys| && p(keys[i]);
        assert keys[1..][i - 1] == keys[i];
      }
    }
  }

  predicate IsAvatarKey(d: string) {
    Includes(d, "avatars")
  }

  predicate IsWorldKey(d: string) {
    Includes(d, "worlds") || Includes(d, "udonsharp")
  }

  /** `detectCategory(vpmDependencies)` */
  function DetectCategory(deps: Option<seq<string>>): (c: Category)
    ensures deps.None? ==> c == Tool
    ensures c == Avatar <==>
      deps.Some? && exists i :: 0 <= i < |deps.value| && IsAvatarKey(deps.value[i])
    ensures c == World <==>
      && deps.Some?
      && (forall i :: 0 <= i < |deps.value| ==> !IsAvatarKey(deps.value[i]))
      && (exists i :: 0 <= i < |deps.value| && IsWorldKey(deps.value[i]))
  {
    match deps
    case None => Tool
    case Some(keys) =>
      AnyKeyIff(keys, IsAvatarKey);
      AnyKeyIff(keys, IsWorldKey);
      if AnyKey(keys, IsAvatarKey) then Avatar
      else if AnyKey(keys, IsWorldKey) then World
      else Tool
  }

  /** An empty dependency object gives `tool`. */
  lemma NoDependenciesIsTool(deps: Option<seq<string>>)
    requires deps.None? || deps.value == []
    ensures DetectCategory(deps) == Tool
  {
  }

  // ---------------------------------------------------------------------------
  // Loading: one display record per package

  /** `displayName || name` */
  function DisplayNameOf(v: PackageVersion): string {
    match v.displayName
    case Some(d) => if d != "" then d else v.name
    case None => v.name
  }

  /** `description || ''` */
  function DescriptionOf(v: PackageVersion): string {
    v.description.GetOr("")
  }

  function Link(e: (string, PackageVersion)): VersionLink {
    VersionLink(e.0, e.1.url)
  }

  function Key(e: (string, PackageVersion)): string {
    e.0
  }

  function LinkVersion(l: VersionLink): string {
    l.version
  }

  /** The record the page builds for one package from its versions. */
  function ToPackageInfo(versions: VersionTable): (p: PackageInfo)
    requires |versions| > 0
    ensures |p.allVersions| == |versions|
    ensures p.category == DetectCategory(p.vpmDependencies)
  {
    var sorted := SortDescending(versions);
    SortPermutes(versions, Key);
    var latest := sorted[0].1;
    PackageInfo(
      latest.name,
      DisplayNameOf(latest),
      DescriptionOf(latest),
      latest.version,
      DetectCategory(latest.vpmDependencies),
      latest.url,
      latest.zipSHA256,
      latest.vpmDependencies,
      Project(sorted, Link))
  }

  /** The record shows the fields of entry `e`, with the page's fallbacks. */
  ghost predicate Shows(p: PackageInfo, e: PackageVersion) {
    && p.name == e.name
    && p.version == e.version
    && p.displayName == (if e.displayName.Some? && e.displayName.value != "" then e.displayName.value else e.name)
    && p.description == (if e.description.Some? then e.description.value else "")
    && p.category == DetectCategory(e.vpmDependencies)
    && p.url == e.url
    && p.zipSHA256 == e.zipSHA256
    && p.vpmDependencies == e.vpmDependencies
  }

  /** The record of a package shows the entry of a greatest version key,
      and the first element of `allVersions` is that key. */
  lemma PackageInfoShowsLatest(versions: VersionTable)
    requires |versions| > 0
    ensures var p := ToPackageInfo(versions);
      && |p.allVersions| == |versions|
      && (exists k :: 0 <= k < |versions| && versions[k].0 == p.allVersions[0].version && Shows(p, versions[k].1))
      && (forall i :: 0 <= i < |versions| ==> !Less(p.allVersions[0].version, versions[i].0))
  {
    var sorted := SortDescending(versions);
    FirstIsGreatest(versions);
    SortMembers(versions);
    var k :| 0 <= k < |versions| && versions[k] == sorted[0];
    assert Shows(ToPackageInfo(versions), versions[k].1);
  }

  /** Among version keys that compare equal to the greatest one, the record
      shows the entry whose key comes first in the table. */
  lemma LatestIsEarliestGreatest(versions: VersionTable)
    requires |versions| > 0
    ensures exists k :: && 0 <= k < |versions| && Shows(ToPackageInfo(versions), versions[k].1)
                        && (forall i :: 0 <= i < |versions| ==> !Less(versions[k].0, versions[i].0))
                        && (forall j :: 0 <= j < k ==> Less(versions[j].0, versions[k].0))
  {
    FirstIsEarliestGreatest(versions);
    var k :| && 0 <= k < |versions| && SortDescending(versions)[0] == versions[k]
             && (forall i :: 0 <= i < |versions| ==> !Less(versions[k].0, versions[i].0))
             && (forall j :: 0 <= j < k ==> Less(versions[j].0, versions[k].0));
    assert Shows(ToPackageInfo(versions), versions[k].1);
  }

  /** `allVersions` lists the versions newest first. */
  lemma AllVersionsDescending(versions: VersionTable)
    requires |versions| > 0
    ensures var l := ToPackageInfo(versions).allVersions;
      forall i, j :: 0 <= i < j < |l| ==> !Less(l[i].version, l[j].version)
  {
    SortIsSorted(versions);
  }

  /** `allVersions` holds every (version, url) pair of the package exactly as
      often as the table does, and nothing else. */
  lemma AllVersionsPermutes(versions: VersionTable)
    requires |versions| > 0
    ensures multiset(ToPackageInfo(versions).allVersions) == multiset(Project(versions, Link))
  {
    SortPermutes(versions, Link);
  }

  /** In particular every version key of the table appears in `allVersions`
      as often as in the table. */
  lemma AllVersionsKeys(versions: VersionTable)
    requires |versions| > 0
    ensures multiset(Project(ToPackageInfo(versions).allVersions, LinkVersion)) == multiset(Project(versions, Key))
  {
    var sorted := SortDescending(versions);
    SortPermutes(versions, Key);
    LinkVersionsAreKeys(sorted);
  }

  lemma LinkVersionsAreKeys(s: VersionTable)
    ensures Project(Project(s, Link), LinkVersion) == Project(s, Key)
  {
    var a := Project(Project(s, Link), LinkVersion);
    var b := Project(s, Key);
    assert |a| == |b|;
    forall i | 0 <= i < |a|
      ensures a[i] == b[i]
    {
      assert Project(s, Link)[i] == Link(s[i]);
    }
  }

  /** `Object.entries(data.packages).map(...)`: one record per package in
      entry order. A package with no versions makes the mapping throw, the
      page keeps its empty list, so the result is empty. */
  function LoadPackages(index: seq<(string, VersionTable)>): (r: seq<PackageInfo>)
    ensures (forall i :: 0 <= i < |index| ==> |index[i].1| > 0) ==>
      |r| == |index| && forall i :: 0 <= i < |index| ==> r[i] == ToPackageInfo(index[i].1)
    ensures (exists i :: 0 <= i < |index| && |index[i].1| == 0) ==> r == []
  {
    if exists i :: 0 <= i < |index| && |index[i].1| == 0 then []
    else seq(|index|, i requires 0 <= i < |index| => ToPackageInfo(index[i].1))
  }

  // ---------------------------------------------------------------------------
  // Filtering

  /** The lower-cased search term occurs in the lower-cased name, display
      name or description. */
  predicate MatchesSearch(p: PackageInfo, term: string) {
    var t := ToLower(term);
    Includes(ToLower(p.name), t) || Includes(ToLower(p.displayName), t) || Includes(ToLower(p.description), t)
  }

  /** The predicate of `filteredPackages`. */
  predicate Keep(p: PackageInfo, filter: CategoryFilter, term: string) {
    (filter == All || filter == Only(p.category)) && MatchesSearch(p, term)
  }

  /** `a` is `b` with some elements left out, order kept. */
  ghost predicate IsSublist(a: seq<PackageInfo>, b: seq<PackageInfo>)
    decreases |b|
  {
    a == [] || (b != [] && ((a[0] == b[0] && IsSublist(a[1..], b[1..])) || IsSublist(a, b[1..])))
  }

  /** `packages.filter(...)` */
  function FilterPackages(ps: seq<PackageInfo>, filter: CategoryFilter, term: string): (r: seq<PackageInfo>)
    ensures forall i :: 0 <= i < |r| ==> Keep(r[i], filter, term)
    ensures forall p :: multiset(r)[p] == if Keep(p, filter, term) then multiset(ps)[p] else 0
    ensures IsSublist(r, ps)
    decreases |ps|
  {
    if ps == [] then []
    else if Keep(ps[0], filter, term) then
      assert ps == [ps[0]] + ps[1..];
      [ps[0]] + FilterPackages(ps[1..], filter, term)
    else
      assert ps == [ps[0]] + ps[1..];
      FilterPackages(ps[1..], filter, term)
  }

  /** A package is kept exactly when the category filter admits it and the
      search term, lower-cased, occurs in one of its three lower-cased texts. */
  lemma KeepIff(p: PackageInfo, filter: CategoryFilter, term: string)
    ensures Keep(p, filter, term) <==>
      && (filter.All? || filter.category == p.category)
      && (|| Occurs(ToLower(p.name), ToLower(term))
          || Occurs(ToLower(p.displayName), ToLower(term))
          || Occurs(ToLower(p.description), ToLower(term)))
  {
    IncludesIff(ToLower(p.name), ToLower(term));
    IncludesIff(ToLower(p.displayName), ToLower(term));
    IncludesIff(ToLower(p.description), ToLower(term));
  }

  /** Filter `all` with an empty search shows every package. */
  lemma {:induction false} ShowAllKeepsEverything(ps: seq<PackageInfo>)
    ensures FilterPackages(ps, All, "") == ps
    decreases |ps|
  {
    if ps != [] {
      IncludesEmpty(ToLower(ps[0].name));
      assert ToLower("") == "";
      ShowAllKeepsEverything(ps[1..]);
    }
  }

  // ---------------------------------------------------------------------------
  // Category counts

  /** The number shown on a category's button: how many packages have that
      category. */
  function CategoryCount(ps: seq<PackageInfo>, c: Category): (n: nat)
    ensures n <= |ps|
    ensures n == 0 <==> forall i :: 0 <= i < |ps| ==> ps[i].category != c
    decreases |ps|
  {
    if ps == [] then 0
    else
      assert forall i :: 1 <= i < |ps| ==> ps[i] == ps[1..][i - 1];
      (if ps[0].category == c then 1 else 0) + CategoryCount(ps[1..], c)
  }

  /** The three counts add up to the number of packages. */
  lemma {:induction false} CountsSum(ps: seq<PackageInfo>)
    ensures CategoryCount(ps, World) + CategoryCount(ps, Avatar) + CategoryCount(ps, Tool) == |ps|
    decreases |ps|
  {
    if ps != [] {
      CountsSum(ps[1..]);
    }
  }

  /** A button's count is the length of the list that button shows while the
      search box is empty. */
  lemma {:induction false} CountIsFilteredLength(ps: seq<PackageInfo>, c: Category)
    ensures CategoryCount(ps, c) == |FilterPackages(ps, Only(c), "")|
    decreases |ps|
  {
    if ps != [] {
      IncludesEmpty(ToLower(ps[0].name));
      assert ToLower("") == "";
      CountIsFilteredLength(ps[1..], c);
    }
  }

  /** The position of a category's button in the button row. */
  function ButtonRank(c: Category): nat {
    match c
    case World => 0
    case Avatar => 1
    case Tool => 2
  }

  /** The category buttons shown, in the order world, avatar, tool: those
      whose count is not zero. */
  function VisibleCategories(ps: seq<PackageInfo>): (r: seq<Category>)
    ensures forall c :: c in r <==> exists i :: 0 <= i < |ps| && ps[i].category == c
    ensures forall i, j :: 0 <= i < j < |r| ==> ButtonRank(r[i]) < ButtonRank(r[j])
  {
    (if CategoryCount(ps, World) > 0 then [World] else [])
    + (if CategoryCount(ps, Avatar) > 0 then [Avatar] else [])
    + (if CategoryCount(ps, Tool) > 0 then [Tool] else [])
  }
}
