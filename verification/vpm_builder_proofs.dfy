/** Properties of the index builder that relate several calls: the invariant
    the release and repository loops keep, what the loop leaves under each
    (package, version) key, and how the descriptor is chosen. */
module VpmBuilderProofs {
  import opened Options
  import opened Strings
  import opened JsValues
  import opened VpmBuilder

  // ---------------------------------------------------------------------------
  // Descriptor resolution

  /** A release with the draft or prerelease flag contributes nothing to the
      release loop, whatever its assets. */
  lemma DraftReleaseContributesNothing(pkgs: Packages, repo: string, input: ReleaseInput, rest: seq<ReleaseInput>, current: Option<string>)
    requires input.release.draft || input.release.prerelease
    ensures ProcessReleases(pkgs, repo, [input] + rest, current) == ProcessReleases(pkgs, repo, rest, current)
  {
    assert ([input] + rest)[1..] == rest;
  }

  /** A release without a `.zip` asset is skipped and leaves the map and the
      current name as they were. */
  lemma ReleaseWithoutArchiveContributesNothing(pkgs: Packages, repo: string, input: ReleaseInput, current: Option<string>)
    requires forall j :: 0 <= j < |input.release.assets| ==> !IsArchiveAsset(input.release.assets[j])
    ensures Step(pkgs, current, repo, input) == (pkgs, current)
  {
  }

  /** With no manifest data (no manifest asset, a failed fetch, or an
      unusable parse result) the entry is the synthesized descriptor plus the
      download fields: name `com.` + slug with its first `/` turned into `.`,
      version the tag without one leading `v`, and no other descriptor field. */
  lemma FallbackWhenNoManifest(repo: string, input: ReleaseInput)
    requires !input.release.draft && !input.release.prerelease
    requires FindZipAsset(input.release.assets).Some?
    requires FindPackageJson(input.release.assets).None? || input.manifest.None? || !Truthy(input.manifest.value)
    ensures var o := ResolveRelease(repo, input);
      && (o.Added? <==> StripLeadingV(input.release.tagName) != "")
      && (o.Added? ==>
          && o.name == "com." + ReplaceFirst(repo, '/', '.')
          && o.version == StripLeadingV(input.release.tagName))
  {
    FallbackData(repo, input);
    var d := FallbackDescriptor(repo, input.release);
    assert Get(Obj(d), "name") == d["name"];
    assert Get(Obj(d), "version") == d["version"];
  }

  /** The entry stored in that case holds the four synthesized fields and
      the download fields, nothing else: the display name is the slug's
      second `/`-segment (undefined for a slug without `/`) and the
      description is the first line of the release notes, or empty. */
  lemma FallbackEntryFields(repo: string, input: ReleaseInput)
    requires !input.release.draft && !input.release.prerelease
    requires FindZipAsset(input.release.assets).Some?
    requires FindPackageJson(input.release.assets).None? || input.manifest.None? || !Truthy(input.manifest.value)
    ensures var o := ResolveRelease(repo, input);
      o.Added? ==>
        && o.entry["displayName"] == FallbackDisplayName(repo)
        && o.entry["description"] == Str(FallbackDescription(input.release.body))
        && o.entry["description"] == Str(if input.release.body.Some? then FirstLine(input.release.body.value) else "")
        && ('/' in repo ==> o.entry["displayName"] == Str(SecondSegment(repo, '/').value))
        && ('/' !in repo ==> o.entry["displayName"] == Undefined)
        && o.entry.Keys == {"name", "displayName", "version", "description", "url"}
                           + (if input.hashes.Some? then {"zipSHA256", "hash"} else {})
  {
    FallbackData(repo, input);
    var o := ResolveRelease(repo, input);
    if o.Added? {
      var z := FindZipAsset(input.release.assets).value;
      FallbackEntryOf(repo, input.release, input.release.assets[z], input.hashes, o.entry);
    }
  }

  /** The entry built from the fallback descriptor. */
  lemma FallbackEntryOf(repo: string, release: Release, zip: Asset, hashes: Option<HashRecord>, e: Entry)
    requires e == VersionEntry(FallbackDescriptor(repo, release), zip, hashes)
    ensures e["displayName"] == FallbackDisplayName(repo)
    ensures e["description"] == Str(FallbackDescription(release.body))
    ensures e["description"] == Str(if release.body.Some? then FirstLine(release.body.value) else "")
    ensures '/' in repo ==> e["displayName"] == Str(SecondSegment(repo, '/').value)
    ensures '/' !in repo ==> e["displayName"] == Undefined
    ensures e.Keys == {"name", "displayName", "version", "description", "url"}
                      + (if hashes.Some? then {"zipSHA256", "hash"} else {})
  {
    var d := FallbackDescriptor(repo, release);
    assert e["displayName"] == d["displayName"];
    assert e["description"] == d["description"];
  }

  lemma FallbackData(repo: string, input: ReleaseInput)
    requires FindPackageJson(input.release.assets).None? || input.manifest.None? || !Truthy(input.manifest.value)
    ensures PackageData(repo, input) == Obj(FallbackDescriptor(repo, input.release))
  {
    assert ManifestData(input) == None;
  }

  /** For a slug `owner/name` without further slashes the fallback identity
      is `com.owner.name` with display name `name`. */
  lemma FallbackIdentityOfSlug(owner: string, name: string)
    requires '/' !in owner && '/' !in name
    ensures ReplaceFirst(owner + "/" + name, '/', '.') == owner + "." + name
    ensures FallbackDisplayName(owner + "/" + name) == Str(name)
  {
    var slug := owner + "/" + name;
    IndexOfAfter(owner, name);
    assert slug[..|owner|] == owner;
    assert slug[|owner| + 1..] == name;
  }

  /** The first `/` of `owner/name` is the one after `owner`. */
  lemma {:induction false} IndexOfAfter(owner: string, name: string)
    requires '/' !in owner
    ensures IndexOf(owner + "/" + name, '/') == Some(|owner|)
  {
    if owner != [] {
      assert (owner + "/" + name)[1..] == owner[1..] + "/" + name;
      IndexOfAfter(owner[1..], name);
    }
  }

  /** For a repository `owner/name` and a release without manifest data the
      entry is stored under `com.owner.name`, with display name `name` and the
      tag minus one leading `v` as version (for example `alice/tool` at
      `v2.0.0` gives `com.alice.tool` version `2.0.0` named `tool`). */
  lemma FallbackForSlug(owner: string, name: string, input: ReleaseInput)
    requires '/' !in owner && '/' !in name
    requires !input.release.draft && !input.release.prerelease
    requires FindZipAsset(input.release.assets).Some?
    requires FindPackageJson(input.release.assets).None? || input.manifest.None? || !Truthy(input.manifest.value)
    requires StripLeadingV(input.release.tagName) != ""
    ensures var o := ResolveRelease(owner + "/" + name, input);
      && o.Added?
      && o.name == "com." + owner + "." + name
      && o.version == StripLeadingV(input.release.tagName)
      && o.entry["displayName"] == Str(name)
  {
    var slug := owner + "/" + name;
    FallbackIdentityOfSlug(owner, name);
    FallbackWhenNoManifest(slug, input);
    FallbackEntryFields(slug, input);
    Regroup("com.", owner, ".", name);
  }

  /** Concatenation regrouped. */
  lemma Regroup(a: string, b: string, c: string, d: string)
    ensures a + (b + c + d) == a + b + c + d
  {
  }

  /** With a manifest object obtained, it is the descriptor unchanged: every
      field other than the three download fields is the manifest's own, and
      no fallback field is mixed in. */
  lemma ManifestUsedUnchanged(repo: string, input: ReleaseInput, m: map<string, Value>)
    requires !input.release.draft && !input.release.prerelease
    requires FindZipAsset(input.release.assets).Some?
    requires FindPackageJson(input.release.assets).Some?
    requires input.manifest == Some(Obj(m))
    requires "name" in m && "version" in m && Truthy(m["name"]) && Truthy(m["version"])
    ensures var o := ResolveRelease(repo, input);
      && o.Added?
      && o.name == ToString(m["name"]) && o.version == ToString(m["version"])
      && forall k :: k != "url" && k != "zipSHA256" && k != "hash" ==>
           (k in o.entry <==> k in m) && (k in m ==> o.entry[k] == m[k])
  {
    assert ManifestData(input) == Some(Obj(m));
  }

  /** A manifest that parses to a truthy value other than an object (a
      number, a string, an array) is used as the descriptor as it is; reading
      `name` from it yields undefined, so the release is skipped as invalid. */
  lemma NonObjectManifestSkipped(repo: string, input: ReleaseInput, v: Value)
    requires !input.release.draft && !input.release.prerelease
    requires FindZipAsset(input.release.assets).Some?
    requires FindPackageJson(input.release.assets).Some?
    requires input.manifest == Some(v) && Truthy(v) && !v.Obj?
    ensures ResolveRelease(repo, input) == Skipped(InvalidPackageData)
  {
    assert PackageData(repo, input) == v;
  }

  /** When the archive was hashed, the entry's `hash` is an object holding
      exactly the four digests by algorithm name, and `zipSHA256` repeats its
      `sha256` member. */
  lemma HashFieldsAgree(repo: string, input: ReleaseInput)
    requires ResolveRelease(repo, input).Added? && input.hashes.Some?
    ensures var e := ResolveRelease(repo, input).entry;
      var h := input.hashes.value;
      && "hash" in e && "zipSHA256" in e
      && e["hash"].Obj? && e["hash"].fields.Keys == {"md5", "sha1", "sha256", "sha512"}
      && e["hash"].fields["sha256"] == e["zipSHA256"]
      && e["hash"].fields["md5"] == Str(h.md5) && e["hash"].fields["sha1"] == Str(h.sha1)
      && e["hash"].fields["sha512"] == Str(h.sha512)
  {
    var e := ResolveRelease(repo, input).entry;
    HashRecordObject(input.hashes.value, e["hash"]);
  }

  /** The object stored for a hash record. */
  lemma HashRecordObject(h: HashRecord, v: Value)
    requires v == HashValue(h)
    ensures v.Obj? && v.fields.Keys == {"md5", "sha1", "sha256", "sha512"}
    ensures v.fields["md5"] == Str(h.md5) && v.fields["sha1"] == Str(h.sha1)
    ensures v.fields["sha256"] == Str(h.sha256) && v.fields["sha512"] == Str(h.sha512)
  {
  }

  /** A descriptor whose name or version is missing or falsy stores nothing. */
  lemma InvalidDescriptorContributesNothing(pkgs: Packages, repo: string, input: ReleaseInput, current: Option<string>)
    requires !Truthy(Get(PackageData(repo, input), "name")) || !Truthy(Get(PackageData(repo, input), "version"))
    ensures Step(pkgs, current, repo, input) == (pkgs, current)
  {
  }

  // ---------------------------------------------------------------------------
  // What the release loop leaves under each key

  /** The entry stored under (name, version), if any. */
  function Lookup(pkgs: Packages, name: string, version: string): Option<Entry> {
    if name in pkgs && version in pkgs[name].versions then Some(pkgs[name].versions[version]) else None
  }

  /** The entry of the last release in `releases` that resolves to
      (name, version). */
  function LastAdded(repo: string, releases: seq<ReleaseInput>, name: string, version: string): Option<Entry>
    decreases |releases|
  {
    if releases == [] then None
    else match LastAdded(repo, releases[1..], name, version)
      case Some(e) => Some(e)
      case None =>
        match ResolveRelease(repo, releases[0])
        case Added(n, v, e) => if n == name && v == version then Some(e) else None
        case Skipped(_) => None
  }

  /** The package name of the last release in `releases` that stores an entry. */
  function LastName(repo: string, releases: seq<ReleaseInput>): Option<string>
    decreases |releases|
  {
    if releases == [] then None
    else match LastName(repo, releases[1..])
      case Some(n) => Some(n)
      case None =>
        match ResolveRelease(repo, releases[0])
        case Added(n, _, _) => Some(n)
        case Skipped(_) => None
  }

  /** After the release loop each (name, version) holds the entry of the last
      release resolving to it; keys no release resolves to keep what they had.
      So distinct versions accumulate, a repeated version is replaced by the
      later release, and every other package and version is unchanged. */
  lemma {:induction false} ReleaseLoopLookup(pkgs: Packages, repo: string, releases: seq<ReleaseInput>, current: Option<string>, name: string, version: string)
    ensures Lookup(ProcessReleases(pkgs, repo, releases, current).0, name, version) ==
      match LastAdded(repo, releases, name, version)
      case Some(e) => Some(e)
      case None => Lookup(pkgs, name, version)
    decreases |releases|
  {
    if releases != [] {
      var (p, c) := Step(pkgs, current, repo, releases[0]);
      ReleaseLoopLookup(p, repo, releases[1..], c, name, version);
    }
  }

  /** The release loop ends with the name of the last release that stored an
      entry as the current name, or the name it started with. */
  lemma {:induction false} ReleaseLoopCurrentName(pkgs: Packages, repo: string, releases: seq<ReleaseInput>, current: Option<string>)
    ensures ProcessReleases(pkgs, repo, releases, current).1 ==
      match LastName(repo, releases)
      case Some(n) => Some(n)
      case None => current
    decreases |releases|
  {
    if releases != [] {
      var (p, c) := Step(pkgs, current, repo, releases[0]);
      ReleaseLoopCurrentName(p, repo, releases[1..], c);
    }
  }

  /** The release loop never removes a package, never touches repository
      fields, and gives new packages none. */
  lemma {:induction false} ReleaseLoopKeepsFields(pkgs: Packages, repo: string, releases: seq<ReleaseInput>, current: Option<string>)
    ensures var r := ProcessReleases(pkgs, repo, releases, current).0;
      && pkgs.Keys <= r.Keys
      && (forall n :: n in r ==> r[n].fields == if n in pkgs then pkgs[n].fields else map[])
    decreases |releases|
  {
    if releases != [] {
      var (p, c) := Step(pkgs, current, repo, releases[0]);
      ReleaseLoopKeepsFields(p, repo, releases[1..], c);
    }
  }

  /** The entry of the last release, over all repositories in order, that
      resolves to (name, version). */
  function LastAddedIn(repos: seq<RepoInput>, name: string, version: string): Option<Entry>
    decreases |repos|
  {
    if repos == [] then None
    else match LastAddedIn(repos[1..], name, version)
      case Some(e) => Some(e)
      case None => LastAdded(repos[0].repo, repos[0].releases, name, version)
  }

  /** Enrichment never changes what is stored under a (name, version) key. */
  lemma EnrichKeepsLookup(pkgs: Packages, current: Option<string>, input: RepoInput, toEpoch: Value -> Value, name: string, version: string)
    ensures Lookup(Enrich(pkgs, current, input, toEpoch), name, version) == Lookup(pkgs, name, version)
  {
  }

  /** One repository's iteration: its release loop decides every
      (name, version) key, and the enrichment that follows changes none. */
  lemma ProcessRepoLookup(pkgs: Packages, input: RepoInput, toEpoch: Value -> Value, name: string, version: string)
    ensures Lookup(ProcessRepo(pkgs, input, toEpoch), name, version) ==
      match LastAdded(input.repo, input.releases, name, version)
      case Some(e) => Some(e)
      case None => Lookup(pkgs, name, version)
  {
    var (p, c) := ProcessReleases(pkgs, input.repo, input.releases, None);
    ReleaseLoopLookup(pkgs, input.repo, input.releases, None, name, version);
    EnrichKeepsLookup(p, c, input, toEpoch, name, version);
  }

  /** The repository fields go to the package of the repository's last
      stored release, when the profile is truthy; every other package is
      left as the release loop left it. */
  lemma ProcessRepoEnrichesLastName(pkgs: Packages, input: RepoInput, toEpoch: Value -> Value)
    ensures var r := ProcessRepo(pkgs, input, toEpoch);
      var (p, c) := ProcessReleases(pkgs, input.repo, input.releases, None);
      && r.Keys == p.Keys
      && (forall n :: n in p && Some(n) != LastName(input.repo, input.releases) ==> r[n] == p[n])
      && (LastName(input.repo, input.releases).Some? && input.info.Some? && Truthy(input.info.value) ==>
            var n := LastName(input.repo, input.releases).value;
            n in r && r[n].fields.Keys
              == RepoFields(input.info.value, input.languages, input.contributors, input.commitActivity, toEpoch).Keys
                 + p[n].fields.Keys)
  {
    var (p, c) := ProcessReleases(pkgs, input.repo, input.releases, None);
    ReleaseLoopCurrentName(pkgs, input.repo, input.releases, None);
    if c.Some? && input.info.Some? && Truthy(input.info.value) {
      EnrichmentRule(p, c, input, toEpoch);
    }
  }

  /** After the repository loop each (name, version) holds the entry of the
      last release of any repository resolving to it. Repositories that
      publish the same package name therefore merge their versions into one
      package, a later repository replacing an equal version key. */
  lemma {:induction false} BuildLookup(pkgs: Packages, repos: seq<RepoInput>, toEpoch: Value -> Value, name: string, version: string)
    ensures Lookup(BuildFrom(pkgs, repos, toEpoch), name, version) ==
      match LastAddedIn(repos, name, version)
      case Some(e) => Some(e)
      case None => Lookup(pkgs, name, version)
    decreases |repos|
  {
    if repos != [] {
      var (p, c) := ProcessReleases(pkgs, repos[0].repo, repos[0].releases, None);
      ReleaseLoopLookup(pkgs, repos[0].repo, repos[0].releases, None, name, version);
      EnrichKeepsLookup(p, c, repos[0], toEpoch, name, version);
      BuildLookup(ProcessRepo(pkgs, repos[0], toEpoch), repos[1..], toEpoch, name, version);
    }
  }

  /** Two repositories publishing the same package name at different
      versions end up as two versions of one package. */
  lemma SharedNameMerges(a: RepoInput, b: RepoInput, toEpoch: Value -> Value, name: string, va: string, vb: string, ea: Entry, eb: Entry)
    requires va != vb
    requires LastAdded(a.repo, a.releases, name, va) == Some(ea)
    requires LastAdded(b.repo, b.releases, name, vb) == Some(eb)
    requires LastAdded(b.repo, b.releases, name, va).None?
    ensures var r := BuildPackages([a, b], toEpoch);
      name in r && r[name].versions.Keys >= {va, vb} && r[name].versions[va] == ea && r[name].versions[vb] == eb
  {
    var repos := [a, b];
    assert repos[1..] == [b] && repos[1..][1..] == [];
    assert LastAddedIn([b], name, va).None?;
    assert LastAddedIn(repos, name, va) == Some(ea);
    assert LastAddedIn([b], name, vb) == Some(eb);
    assert LastAddedIn(repos, name, vb) == Some(eb);
    BuildLookup(map[], repos, toEpoch, name, va);
    BuildLookup(map[], repos, toEpoch, name, vb);
  }

  // ---------------------------------------------------------------------------
  // The invariant

  lemma AddVersionKeepsWellFormed(pkgs: Packages, name: string, version: string, entry: Entry)
    requires WellFormed(pkgs)
    requires EntryMatches(name, version, entry)
    ensures WellFormed(AddVersion(pkgs, name, version, entry))
  {
    var r := AddVersion(pkgs, name, version, entry);
    forall n | n in r
      ensures PackageWellFormed(n, r[n])
    {
      if n == name {
        AddedPackageWellFormed(pkgs, name, version, entry);
      } else {
        assert r[n] == pkgs[n];
      }
    }
  }

  /** The package an entry was just stored under keeps the invariant. */
  lemma AddedPackageWellFormed(pkgs: Packages, name: string, version: string, entry: Entry)
    requires WellFormed(pkgs)
    requires EntryMatches(name, version, entry)
    ensures PackageWellFormed(name, AddVersion(pkgs, name, version, entry)[name])
  {
    var p := AddVersion(pkgs, name, version, entry)[name];
    assert version in p.versions;
    forall v | v in p.versions
      ensures EntryMatches(name, v, p.versions[v])
    {
      if v != version {
        assert PackageWellFormed(name, pkgs[name]);
        assert p.versions[v] == pkgs[name].versions[v];
      }
    }
  }

  lemma {:induction false} ReleaseLoopKeepsWellFormed(pkgs: Packages, repo: string, releases: seq<ReleaseInput>, current: Option<string>)
    requires WellFormed(pkgs)
    ensures WellFormed(ProcessReleases(pkgs, repo, releases, current).0)
    ensures var c := ProcessReleases(pkgs, repo, releases, current).1;
      c != current ==> c.Some? && c.value in ProcessReleases(pkgs, repo, releases, current).0
    decreases |releases|
  {
    if releases != [] {
      var o := ResolveRelease(repo, releases[0]);
      if o.Added? {
        AddVersionKeepsWellFormed(pkgs, o.name, o.version, o.entry);
      }
      var (p, c) := Step(pkgs, current, repo, releases[0]);
      ReleaseLoopKeepsWellFormed(p, repo, releases[1..], c);
      ReleaseLoopKeepsFields(p, repo, releases[1..], c);
    }
  }

  lemma EnrichKeepsWellFormed(pkgs: Packages, current: Option<string>, input: RepoInput, toEpoch: Value -> Value)
    requires WellFormed(pkgs)
    ensures WellFormed(Enrich(pkgs, current, input, toEpoch))
  {
  }

  /** Enrichment applies exactly when a name was resolved for the repository
      and its profile is present, only to that name, and keeps every field the
      package already had, `versions` included. */
  lemma EnrichmentRule(pkgs: Packages, current: Option<string>, input: RepoInput, toEpoch: Value -> Value)
    requires current.Some? && current.value in pkgs && input.info.Some? && Truthy(input.info.value)
    ensures var r := Enrich(pkgs, current, input, toEpoch);
      var repoFields := RepoFields(input.info.value, input.languages, input.contributors, input.commitActivity, toEpoch);
      && r[current.value].versions == pkgs[current.value].versions
      && r[current.value].fields.Keys == repoFields.Keys + pkgs[current.value].fields.Keys
      && (forall k :: k in repoFields && k !in pkgs[current.value].fields ==> r[current.value].fields[k] == repoFields[k])
      && (forall k :: k in pkgs[current.value].fields ==> r[current.value].fields[k] == pkgs[current.value].fields[k])
  {
  }

  /** The three timestamps are the profile's values converted to epoch form
      when truthy, and null when missing or falsy. */
  lemma RepoTimestamps(info: Value, languages: Value, contributors: Value, commitActivity: Value, toEpoch: Value -> Value)
    ensures var f := RepoFields(info, languages, contributors, commitActivity, toEpoch);
      && "created_at" in f && f["created_at"] == (if Truthy(Get(info, "created_at")) then toEpoch(Get(info, "created_at")) else Null)
      && "updated_at" in f && f["updated_at"] == (if Truthy(Get(info, "updated_at")) then toEpoch(Get(info, "updated_at")) else Null)
      && "pushed_at" in f && f["pushed_at"] == (if Truthy(Get(info, "pushed_at")) then toEpoch(Get(info, "pushed_at")) else Null)
  {
    var f := RepoFields(info, languages, contributors, commitActivity, toEpoch);
    assert f["pushed_at"] == EpochOrNull(Get(info, "pushed_at"), toEpoch);
    assert f["updated_at"] == EpochOrNull(Get(info, "updated_at"), toEpoch);
    assert f["created_at"] == EpochOrNull(Get(info, "created_at"), toEpoch);
  }

  /** For a profile whose web address and default branch are strings, the
      readme, changelog and licence addresses are files under
      `<html_url>/blob/<default_branch>`. */
  lemma RepoAddresses(info: Value, languages: Value, contributors: Value, commitActivity: Value, toEpoch: Value -> Value, home: string, branch: string)
    requires Get(info, "html_url") == Str(home) && Get(info, "default_branch") == Str(branch)
    ensures var f := RepoFields(info, languages, contributors, commitActivity, toEpoch);
      && f["readme_url"] == Str(home + "/blob/" + branch + "/README.md")
      && f["changelog_url"] == Str(home + "/blob/" + branch + "/CHANGELOG.md")
      && (Truthy(Get(info, "license")) ==> f["license_url"] == Str(home + "/blob/" + branch + "/LICENSE"))
  {
    assert BlobBase(info) == home + "/blob/" + branch;
  }

  lemma {:induction false} BuildKeepsWellFormed(pkgs: Packages, repos: seq<RepoInput>, toEpoch: Value -> Value)
    requires WellFormed(pkgs)
    ensures WellFormed(BuildFrom(pkgs, repos, toEpoch))
    decreases |repos|
  {
    if repos != [] {
      var (p, c) := ProcessReleases(pkgs, repos[0].repo, repos[0].releases, None);
      ReleaseLoopKeepsWellFormed(pkgs, repos[0].repo, repos[0].releases, None);
      EnrichKeepsWellFormed(p, c, repos[0], toEpoch);
      BuildKeepsWellFormed(ProcessRepo(pkgs, repos[0], toEpoch), repos[1..], toEpoch);
    }
  }

  /** The output document copies the feed identity from the configuration,
      and in its package map every package has at least one version and
      every entry's name and version coerce to the keys it is stored under. */
  lemma IndexIsWellFormed(config: Config, repos: seq<RepoInput>, toEpoch: Value -> Value)
    ensures var idx := BuildIndex(config, repos, toEpoch);
      && idx.name == config.name && idx.id == config.id && idx.url == config.url && idx.author == config.author
      && WellFormed(idx.packages)
      && (forall n, v :: n in idx.packages && v in idx.packages[n].versions ==>
           ToString(idx.packages[n].versions[v]["name"]) == n && ToString(idx.packages[n].versions[v]["version"]) == v)
      && forall n, v :: Lookup(idx.packages, n, v) == LastAddedIn(repos, n, v)
  {
    BuildKeepsWellFormed(map[], repos, toEpoch);
    forall n, v ensures Lookup(BuildPackages(repos, toEpoch), n, v) == LastAddedIn(repos, n, v) {
      BuildLookup(map[], repos, toEpoch, n, v);
    }
  }
}
