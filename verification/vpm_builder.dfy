/** The package-index builder of scripts/vpm.mjs without its I/O: everything
    the script fetches (release lists, manifests, archive hashes, repository
    profiles) arrives here as input, and what remains is a fold over the
    configured repositories and their releases that produces the nested map
    package name -> versions -> version -> entry. */
module VpmBuilder {
  import opened Options
  import opened Strings
  import opened JsValues

  /** The reserved asset name of a release's package manifest. */
  const ManifestAssetName := "package.json"
  /** The file extension of the installable archive asset. */
  const ArchiveSuffix := ".zip"

  // ---------------------------------------------------------------------------
  // Data model

  /** A file attached to a release: `url` is the API address of its content,
      `browserDownloadUrl` the public download address. */
  datatype Asset = Asset(name: string, url: string, browserDownloadUrl: string)

  /** One release as the releases endpoint lists it; a missing asset list is
      the empty sequence, a missing body is `None`. */
  datatype Release = Release(
    tagName: string,
    draft: bool,
    prerelease: bool,
    body: Option<string>,
    assets: seq<Asset>)

  /** The four digests of an archive. */
  datatype HashRecord = HashRecord(md5: string, sha1: string, sha256: string, sha512: string)

  /** A release together with what the network returned for it: `manifest` is
      what fetching and parsing its manifest asset gave (`None` when the fetch
      failed or the text was not JSON; ignored when the release has no
      manifest asset), `hashes` the digests of its archive (`None` when the
      download failed). */
  datatype ReleaseInput = ReleaseInput(release: Release, manifest: Option<Value>, hashes: Option<HashRecord>)

  /** One configured repository (`owner/name`) with the five results fetched
      for it: the profile (`None` when that fetch failed), the releases, the
      language byte counts, the reduced contributor list and the weekly commit
      activity. */
  datatype RepoInput = RepoInput(
    repo: string,
    info: Option<Value>,
    releases: seq<ReleaseInput>,
    languages: Value,
    contributors: Value,
    commitActivity: Value)

  /** A version entry: a JSON object. */
  type Entry = map<string, Value>

  /** A package object: its `versions` map plus the repository-level fields
      the enrichment step adds (which never include a `versions` key). */
  datatype Package = Package(fields: map<string, Value>, versions: map<string, Entry>)

  type Packages = map<string, Package>

  /** The feed identity read from the configuration. */
  datatype Config = Config(name: Value, id: Value, url: Value, author: Value)

  /** The output document. */
  datatype Index = Index(name: Value, id: Value, url: Value, author: Value, packages: Packages)

  datatype SkipReason = DraftOrPrerelease | NoZipAsset | InvalidPackageData

  /** What one release contributes: nothing, or one entry under a package
      key and a version key. */
  datatype Outcome = Skipped(reason: SkipReason) | Added(name: string, version: string, entry: Entry)

  // ---------------------------------------------------------------------------
  // Asset selection

  predicate IsManifestAsset(a: Asset) {
    a.name == ManifestAssetName
  }

  predicate IsArchiveAsset(a: Asset) {
    EndsWith(a.name, ArchiveSuffix)
  }

  /** `assets.find(p)` from position `from` on, as a position. */
  function FindFrom(assets: seq<Asset>, p: Asset -> bool, from: nat): (r: Option<nat>)
    requires from <= |assets|
    ensures r.Some? ==> from <= r.value < |assets| && p(assets[r.value])
    ensures r.Some? ==> forall j :: from <= j < r.value ==> !p(assets[j])
    ensures r.None? ==> forall j :: from <= j < |assets| ==> !p(assets[j])
    decreases |assets| - from
  {
    if from == |assets| then None
    else if p(assets[from]) then Some(from)
    else FindFrom(assets, p, from + 1)
  }

  /** The position of the first asset named exactly `package.json`. */
  function FindPackageJson(assets: seq<Asset>): (r: Option<nat>)
    ensures r.Some? ==> r.value < |assets| && IsManifestAsset(assets[r.value])
    ensures r.Some? ==> forall j :: 0 <= j < r.value ==> !IsManifestAsset(assets[j])
    ensures r.None? <==> forall j :: 0 <= j < |assets| ==> !IsManifestAsset(assets[j])
  {
    FindFrom(assets, IsManifestAsset, 0)
  }

  /** The position of the first asset whose name ends in `.zip`. */
  function FindZipAsset(assets: seq<Asset>): (r: Option<nat>)
    ensures r.Some? ==> r.value < |assets| && IsArchiveAsset(assets[r.value])
    ensures r.Some? ==> forall j :: 0 <= j < r.value ==> !IsArchiveAsset(assets[j])
    ensures r.None? <==> forall j :: 0 <= j < |assets| ==> !IsArchiveAsset(assets[j])
  {
    FindFrom(assets, IsArchiveAsset, 0)
  }

  // ---------------------------------------------------------------------------
  // Descriptor resolution

  /** `tag.replace(/^v/, '')`: one leading lower-case `v` is dropped. */
  function StripLeadingV(tag: string): (r: string)
    ensures StartsWith(tag, "v") ==> "v" + r == tag
    ensures !StartsWith(tag, "v") ==> r == tag
  {
    if |tag| > 0 && tag[0] == 'v' then tag[1..] else tag
  }

  /** `repo.split('/')[1]`, `undefined` when the slug has no slash. */
  function FallbackDisplayName(repo: string): Value {
    match SecondSegment(repo, '/')
    case Some(s) => Str(s)
    case None => Undefined
  }

  /** The first line of the release notes; empty when there are none. */
  function FallbackDescription(body: Option<string>): string {
    match body
    case Some(b) => FirstLine(b)
    case None => ""
  }

  /** The descriptor synthesized from the repository slug and the release
      when no manifest data was obtained. */
  function FallbackDescriptor(repo: string, release: Release): (d: map<string, Value>)
    ensures d.Keys == {"name", "displayName", "version", "description"}
    ensures Truthy(d["name"])
  {
    map[
      "name" := Str("com." + ReplaceFirst(repo, '/', '.')),
      "displayName" := FallbackDisplayName(repo),
      "version" := Str(StripLeadingV(release.tagName)),
      "description" := Str(FallbackDescription(release.body))
    ]
  }

  /** The manifest data actually obtained for a release: only consulted when
      the release carries a manifest asset, and only kept when truthy. */
  function ManifestData(input: ReleaseInput): (m: Option<Value>)
    ensures m.Some? ==> FindPackageJson(input.release.assets).Some? && input.manifest == m && Truthy(m.value)
    ensures FindPackageJson(input.release.assets).Some? && input.manifest.Some? && Truthy(input.manifest.value)
      ==> m == input.manifest
  {
    if FindPackageJson(input.release.assets).Some? && input.manifest.Some? && Truthy(input.manifest.value)
    then input.manifest
    else None
  }

  /** `packageData`: the manifest data when obtained, otherwise the fallback. */
  function PackageData(repo: string, input: ReleaseInput): (d: Value)
    ensures FindPackageJson(input.release.assets).Some? && input.manifest.Some? && Truthy(input.manifest.value)
      ==> d == input.manifest.value
    ensures !(FindPackageJson(input.release.assets).Some? && input.manifest.Some? && Truthy(input.manifest.value))
      ==> d == Obj(FallbackDescriptor(repo, input.release))
  {
    match ManifestData(input)
    case Some(m) => m
    case None => Obj(FallbackDescriptor(repo, input.release))
  }

  /** The JSON object the builder stores for the hash record. */
  function HashValue(h: HashRecord): Value {
    Obj(map["md5" := Str(h.md5), "sha1" := Str(h.sha1), "sha256" := Str(h.sha256), "sha512" := Str(h.sha512)])
  }

  /** The stored entry: the descriptor's fields, then the download address,
      then (when the archive was hashed) its SHA-256 and the full hash record,
      later fields replacing earlier ones of the same name. */
  function VersionEntry(descriptor: map<string, Value>, zip: Asset, hashes: Option<HashRecord>): (e: Entry)
    ensures e.Keys == descriptor.Keys + {"url"} + (if hashes.Some? then {"zipSHA256", "hash"} else {})
    ensures e["url"] == Str(zip.browserDownloadUrl)
    ensures hashes.Some? ==> e["zipSHA256"] == Str(hashes.value.sha256) && e["hash"] == HashValue(hashes.value)
    ensures forall k :: k in descriptor && k != "url" && (hashes.None? || (k != "zipSHA256" && k != "hash")) ==>
                          e[k] == descriptor[k]
  {
    var withUrl := descriptor["url" := Str(zip.browserDownloadUrl)];
    match hashes
    case None => withUrl
    case Some(h) => withUrl["zipSHA256" := Str(h.sha256)]["hash" := HashValue(h)]
  }

  /** An entry stored under package key `name` and version key `version`
      carries truthy `name` and `version` fields that coerce to those keys. */
  predicate EntryMatches(name: string, version: string, e: Entry) {
    && "name" in e && "version" in e
    && Truthy(e["name"]) && Truthy(e["version"])
    && ToString(e["name"]) == name && ToString(e["version"]) == version
  }

  /** The body of the per-release loop up to the point where an entry is
      stored. */
  function ResolveRelease(repo: string, input: ReleaseInput): (o: Outcome)
    ensures input.release.draft || input.release.prerelease ==> o == Skipped(DraftOrPrerelease)
    ensures !input.release.draft && !input.release.prerelease && FindZipAsset(input.release.assets).None?
      ==> o == Skipped(NoZipAsset)
    ensures o == Skipped(InvalidPackageData) <==>
      && !input.release.draft && !input.release.prerelease
      && FindZipAsset(input.release.assets).Some?
      && (!Truthy(Get(PackageData(repo, input), "name")) || !Truthy(Get(PackageData(repo, input), "version")))
    ensures o.Added? <==>
      && !input.release.draft && !input.release.prerelease
      && FindZipAsset(input.release.assets).Some?
      && Truthy(Get(PackageData(repo, input), "name")) && Truthy(Get(PackageData(repo, input), "version"))
    ensures o.Added? ==>
      o.entry == VersionEntry(PackageData(repo, input).fields,
                              input.release.assets[FindZipAsset(input.release.assets).value], input.hashes)
    ensures o.Added? && input.hashes.Some? ==>
      && "zipSHA256" in o.entry && o.entry["zipSHA256"] == Str(input.hashes.value.sha256)
      && "hash" in o.entry && o.entry["hash"] == HashValue(input.hashes.value)
    ensures o.Added? ==> EntryMatches(o.name, o.version, o.entry)
    ensures o.Added? ==>
              && FindZipAsset(input.release.assets).Some? && "url" in o.entry
              && o.entry["url"] == Str(input.release.assets[FindZipAsset(input.release.assets).value].browserDownloadUrl)
  {
    var release := input.release;
    if release.draft || release.prerelease then Skipped(DraftOrPrerelease)
    else match FindZipAsset(release.assets)
      case None => Skipped(NoZipAsset)
      case Some(z) =>
        var data := PackageData(repo, input);
        var name := Get(data, "name");
        var version := Get(data, "version");
        if !Truthy(name) || !Truthy(version) then Skipped(InvalidPackageData)
        else Added(ToString(name), ToString(version), VersionEntry(data.fields, release.assets[z], input.hashes))
  }

  // ---------------------------------------------------------------------------
  // Aggregation

  /** Store `entry` under package `name` and version `version`, creating the
      package with an empty version map when it is not there yet. */
  function AddVersion(pkgs: Packages, name: string, version: string, entry: Entry): (r: Packages)
    ensures r.Keys == pkgs.Keys + {name}
    ensures r[name].versions.Keys == (if name in pkgs then pkgs[name].versions.Keys else {}) + {version}
    ensures r[name].versions[version] == entry
    ensures name in pkgs ==> r[name].fields == pkgs[name].fields
    ensures name !in pkgs ==> r[name].fields == map[]
    ensures name in pkgs ==> forall v :: v in pkgs[name].versions && v != version ==>
      r[name].versions[v] == pkgs[name].versions[v]
    ensures forall n :: n in pkgs && n != name ==> r[n] == pkgs[n]
  {
    var p := if name in pkgs then pkgs[name] else Package(map[], map[]);
    pkgs[name := p.(versions := p.versions[version := entry])]
  }

  /** One iteration of the release loop: the packages so far and the name
      last resolved in this repository. */
  function Step(pkgs: Packages, current: Option<string>, repo: string, input: ReleaseInput): (r: (Packages, Option<string>))
    ensures ResolveRelease(repo, input).Skipped? ==> r == (pkgs, current)
    ensures ResolveRelease(repo, input).Added? ==>
      var o := ResolveRelease(repo, input);
      && r.1 == Some(o.name) && r.0.Keys == pkgs.Keys + {o.name}
      && o.version in r.0[o.name].versions && r.0[o.name].versions[o.version] == o.entry
  {
    match ResolveRelease(repo, input)
    case Skipped(_) => (pkgs, current)
    case Added(name, version, entry) => (AddVersion(pkgs, name, version, entry), Some(name))
  }

  /** The release loop of one repository, in list order. */
  function ProcessReleases(pkgs: Packages, repo: string, releases: seq<ReleaseInput>, current: Option<string>): (r: (Packages, Option<string>))
    ensures pkgs.Keys <= r.0.Keys
    ensures r.1 != current ==> r.1.Some? && r.1.value in r.0
    decreases |releases|
  {
    if releases == [] then (pkgs, current)
    else
      var (p, c) := Step(pkgs, current, repo, releases[0]);
      ProcessReleases(p, repo, releases[1..], c)
  }

  // ---------------------------------------------------------------------------
  // Repository-level enrichment

  /** `x ? toEpoch(x) : null` for the three timestamps; the date arithmetic
      itself is the parameter `toEpoch`. */
  function EpochOrNull(v: Value, toEpoch: Value -> Value): Value {
    if Truthy(v) then toEpoch(v) else Null
  }

  /** The object literal of repository fields built from the profile. */
  function RepoFields(info: Value, languages: Value, contributors: Value, commitActivity: Value, toEpoch: Value -> Value): (f: map<string, Value>)
    ensures "versions" !in f
    ensures "license_url" in f && "readme_url" in f && "changelog_url" in f
    ensures f["license_url"] == Null <==> !Truthy(Get(info, "license"))
    ensures Truthy(Get(info, "license")) ==> f["license_url"] == Str(BlobBase(info) + "/LICENSE")
    ensures f["readme_url"] == Str(BlobBase(info) + "/README.md")
    ensures f["changelog_url"] == Str(BlobBase(info) + "/CHANGELOG.md")
  {
    var owner := Get(info, "owner");
    var blob := BlobBase(info);
    map[
      "owner" := Obj(map["login" := Get(owner, "login"), "avatar_url" := Get(owner, "avatar_url"), "url" := Get(owner, "html_url")]),
      "name" := Get(info, "name"),
      "full_name" := Get(info, "full_name"),
      "description" := Get(info, "description"),
      "url" := Get(info, "html_url"),
      "clone_url" := Get(info, "clone_url"),
      "language" := Get(info, "language"),
      "languages" := languages,
      "size" := Get(info, "size"),
      "stars" := Get(info, "stargazers_count"),
      "watchers" := Get(info, "watchers_count"),
      "forks" := Get(info, "forks_count"),
      "open_issues" := Get(info, "open_issues_count"),
      "license" := Get(Get(info, "license"), "spdx_id"),
      "topics" := Get(info, "topics"),
      "default_branch" := Get(info, "default_branch"),
      "archived" := Get(info, "archived"),
      "disabled" := Get(info, "disabled"),
      "has_issues" := Get(info, "has_issues"),
      "has_wiki" := Get(info, "has_wiki"),
      "has_discussions" := Get(info, "has_discussions"),
      "contributors" := contributors,
      "commit_activity" := commitActivity,
      "license_url" := if Truthy(Get(info, "license")) then Str(blob + "/LICENSE") else Null,
      "readme_url" := Str(blob + "/README.md"),
      "changelog_url" := Str(blob + "/CHANGELOG.md"),
      "created_at" := EpochOrNull(Get(info, "created_at"), toEpoch),
      "updated_at" := EpochOrNull(Get(info, "updated_at"), toEpoch),
      "pushed_at" := EpochOrNull(Get(info, "pushed_at"), toEpoch)
    ]
  }

  /** The repository's web address for files on its default branch. */
  function BlobBase(info: Value): string {
    ToString(Get(info, "html_url")) + "/blob/" + ToString(Get(info, "default_branch"))
  }

  /** The package last resolved in the repository gets the repository
      fields, its own fields taking precedence on a clash. This happens only
      when a name was resolved, the package exists and the profile is truthy. */
  function Enrich(pkgs: Packages, current: Option<string>, input: RepoInput, toEpoch: Value -> Value): (r: Packages)
    ensures r.Keys == pkgs.Keys
    ensures !(current.Some? && current.value in pkgs && input.info.Some? && Truthy(input.info.value)) ==> r == pkgs
    ensures forall n :: n in pkgs ==> r[n].versions == pkgs[n].versions
    ensures forall n :: n in pkgs && Some(n) != current ==> r[n] == pkgs[n]
    ensures forall n, k :: n in pkgs && k in pkgs[n].fields ==> k in r[n].fields && r[n].fields[k] == pkgs[n].fields[k]
    ensures forall n :: n in pkgs ==> "versions" in r[n].fields ==> "versions" in pkgs[n].fields
  {
    if current.Some? && current.value in pkgs && input.info.Some? && Truthy(input.info.value) then
      var p := pkgs[current.value];
      var repoFields := RepoFields(input.info.value, input.languages, input.contributors, input.commitActivity, toEpoch);
      pkgs[current.value := Package(repoFields + p.fields, p.versions)]
    else pkgs
  }

  /** One iteration of the repository loop. */
  function ProcessRepo(pkgs: Packages, input: RepoInput, toEpoch: Value -> Value): Packages {
    var (p, current) := ProcessReleases(pkgs, input.repo, input.releases, None);
    Enrich(p, current, input, toEpoch)
  }

  /** The repository loop from a given accumulator. */
  function BuildFrom(pkgs: Packages, repos: seq<RepoInput>, toEpoch: Value -> Value): (r: Packages)
    ensures pkgs.Keys <= r.Keys
    decreases |repos|
  {
    if repos == [] then pkgs
    else BuildFrom(ProcessRepo(pkgs, repos[0], toEpoch), repos[1..], toEpoch)
  }

  /** `buildPackages()`: the loop over all configured repositories, starting
      from an empty map. A missing repository list is the empty sequence. */
  function BuildPackages(repos: seq<RepoInput>, toEpoch: Value -> Value): Packages {
    BuildFrom(map[], repos, toEpoch)
  }

  // ---------------------------------------------------------------------------
  // Invariant of the package map

  /** Every package has at least one version, every entry's name and version
      coerce to its keys, and no enrichment field shadows `versions`. */
  ghost predicate WellFormed(pkgs: Packages) {
    forall n :: n in pkgs ==> PackageWellFormed(n, pkgs[n])
  }

  /** The invariant for the package stored under key `name`. */
  ghost predicate PackageWellFormed(name: string, p: Package) {
    && |p.versions| > 0
    && "versions" !in p.fields
    && forall v :: v in p.versions ==> EntryMatches(name, v, p.versions[v])
  }

  // ---------------------------------------------------------------------------
  // Envelope and summary

  /** `build()`: the envelope around the package map. */
  function BuildIndex(config: Config, repos: seq<RepoInput>, toEpoch: Value -> Value): Index {
    Index(config.name, config.id, config.url, config.author, BuildPackages(repos, toEpoch))
  }

  /** All (package key, version key) pairs of the map. */
  ghost function VersionPairs(pkgs: Packages): set<(string, string)> {
    set n, v | n in pkgs && v in pkgs[n].versions :: (n, v)
  }

  /** The packages whose keys lie outside `exclude`. */
  ghost function Without(pkgs: Packages, exclude: set<string>): Packages {
    map n | n in pkgs && n !in exclude :: pkgs[n]
  }

  /** The reported version total: the sizes of all `versions` maps added up,
      which is the number of distinct (package, version) pairs. */
  method CountVersions(pkgs: Packages) returns (total: nat)
    ensures total == |VersionPairs(pkgs)|
  {
    total := 0;
    var remaining := pkgs.Keys;
    assert Without(pkgs, remaining) == map[];
    assert VersionPairs(map[]) == {};
    while remaining != {}
      invariant remaining <= pkgs.Keys
      invariant total == |VersionPairs(Without(pkgs, remaining))|
      decreases |remaining|
    {
      var n :| n in remaining;
      PairsGrow(pkgs, remaining, n);
      total := total + |pkgs[n].versions|;
      remaining := remaining - {n};
    }
    assert Without(pkgs, {}) == pkgs;
  }

  /** Moving one package out of the excluded set adds exactly its versions. */
  lemma PairsGrow(pkgs: Packages, remaining: set<string>, n: string)
    requires n in remaining && remaining <= pkgs.Keys
    ensures |VersionPairs(Without(pkgs, remaining - {n}))| == |VersionPairs(Without(pkgs, remaining))| + |pkgs[n].versions|
  {
    var before := VersionPairs(Without(pkgs, remaining));
    var added := set v | v in pkgs[n].versions :: (n, v);
    assert VersionPairs(Without(pkgs, remaining - {n})) == before + added;
    assert before !! added;
    PairsOfOne(n, pkgs[n].versions.Keys);
  }

  /** Pairing a fixed key with each element of a set keeps its size. */
  lemma {:induction false} PairsOfOne(n: string, vs: set<string>)
    ensures |set v | v in vs :: (n, v)| == |vs|
    decreases |vs|
  {
    if vs != {} {
      var v :| v in vs;
      PairsOfOne(n, vs - {v});
      assert (set w | w in vs :: (n, w)) == (set w | w in vs - {v} :: (n, w)) + {(n, v)};
    }
  }
}
