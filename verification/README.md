# VPM package listing: index builder and catalog view

This project models the two halves of a site's VPM package listing. VPM is
the VRChat package manager feed format.

* **The index builder** (`scripts/vpm.mjs`) walks the configured GitHub
  repositories and their releases. For each release it picks the
  `package.json` asset and the `.zip` asset. It takes the manifest as the
  package descriptor, or synthesizes one from the repository slug and the
  release tag when there is none. It stores one version entry per
  (package name, version) and decorates the last package of each repository
  with repository metadata. The result is the `{name, id, url, author, packages}`
  document. In the model, everything the script fetches is an input
  (`VpmBuilder.ReleaseInput`, `VpmBuilder.RepoInput`). The builder is a pure
  fold over those inputs.
* **The catalog page** (`src/app/vpm/page.tsx`) turns that document into one
  display record per package. The latest version is the first one after a
  descending numeric sort of the version keys. The page guesses a category
  from the dependency names, filters by category and search term, counts
  packages per category for the filter buttons, and turns the theme's
  computed `rgb(r, g, b)` colour into `#rrggbb`.

Modules:

* `Options`, `Strings`, `JsValues`: the option type; string helpers (find,
  first-occurrence replace, split, lower-casing, decimal and hex numerals);
  and JSON values with the JavaScript truthiness and `String()` coercion the
  builder relies on.
* `VpmBuilder`: asset selection, descriptor resolution, version entries, the
  release and repository loops, enrichment, and the version total.
  `VpmBuilderProofs` holds the properties that relate several calls: the
  invariant both loops keep, what ends up under each key, and when the
  fallback descriptor is used.
* `NaturalOrder`: the version comparator as a strict order, and the stable
  sort the page applies. The lemmas show the sort is a permutation, is
  sorted, and puts a greatest key first.
* `VpmCatalog`: category detection, package records, the filter and the
  category counts.
* `PrimaryColour`: the `rgb(...)` pattern match, the hex conversion, and the
  colour after a series of `updateColor` runs starting from `#888888`.

## Model

| member | source | states |
|---|---|---|
| VpmBuilder.FindFrom | scripts/vpm.mjs:164-173 | `assets.find(p)`: the result satisfies `p`, every earlier asset fails `p`, and the result is absent only when no asset satisfies `p` |
| VpmBuilder.FindPackageJson | scripts/vpm.mjs:164-166 | the manifest asset is the first asset named exactly `package.json`; there is none exactly when no asset has that name |
| VpmBuilder.FindZipAsset | scripts/vpm.mjs:171-173 | the archive is the first asset whose name ends in `.zip`; there is none exactly when no asset name ends that way |
| VpmBuilder.StripLeadingV | scripts/vpm.mjs:240 | a tag starting with `v` loses exactly that one character; any other tag is kept as it is |
| VpmBuilder.FallbackDescriptor | scripts/vpm.mjs:238-247 | the synthesized descriptor has exactly the fields name, displayName, version and description, and its name is never empty |
| VpmBuilder.ManifestData | scripts/vpm.mjs:231-238 | the fetched value is used exactly when the release has a `package.json` asset and the value is truthy, and then it is the value itself. This includes truthy non-objects; `VpmBuilderProofs.NonObjectManifestSkipped` shows they are skipped as invalid |
| VpmBuilder.PackageData | scripts/vpm.mjs:231-247 | the descriptor is the fetched value when the release has a `package.json` asset and the value is truthy; in every other case it is the synthesized descriptor |
| VpmBuilder.VersionEntry | scripts/vpm.mjs:270-277 | the entry's keys are the descriptor's keys plus `url`, plus `zipSHA256` and `hash` exactly when hashes exist; `url` is the archive's download address; every other descriptor field is copied unchanged |
| VpmBuilder.ResolveRelease | scripts/vpm.mjs:220-277 | drafts and prereleases are skipped, and so is a release without an archive. A release is stored exactly when it is neither, has an archive, and its descriptor has a truthy name and version; it is skipped as invalid exactly when the name or version is falsy. The stored entry is the descriptor plus the first archive's download address, and, when hashing succeeded, `zipSHA256` is the SHA-256 and `hash` the full record. Its name and version coerce to the keys it goes under |
| VpmBuilder.ProcessReleases | scripts/vpm.mjs:218-280 | the release loop never removes a package; a changed current name names a package in the map. What each key holds after the loop is stated by `VpmBuilderProofs.ReleaseLoopLookup` |
| VpmBuilder.Step | scripts/vpm.mjs:220-280 | one release-loop iteration: a skipped release leaves the map and the current name as they were; a stored release becomes the current name, its package is in the map (and is the only key that may be new), and its entry sits under its version |
| VpmBuilder.AddVersion | scripts/vpm.mjs:259-277 | the package is created with no fields when absent; the version is set or replaced; every other version and package is unchanged |
| VpmBuilder.RepoFields | scripts/vpm.mjs:283-325 | the repository fields never include `versions`; `license_url` is null exactly when the profile has no licence, and the blob address plus `/LICENSE` otherwise; the readme and changelog addresses are the blob address plus `/README.md` and `/CHANGELOG.md` |
| VpmBuilder.Enrich | scripts/vpm.mjs:282-328 | nothing changes unless a name was resolved, is in the map and the profile is truthy; only that package changes; its versions and every field it already had are kept; no key is added or removed |
| VpmBuilder.BuildFrom | scripts/vpm.mjs:202-332 | the repository loop never removes a package. What each key holds is stated by `VpmBuilderProofs.BuildLookup`, and the invariant by `VpmBuilderProofs.BuildKeepsWellFormed` |
| VpmBuilder.BuildIndex | scripts/vpm.mjs:337-348 | the output document: the feed identity comes from the configuration, and under each (name, version) it holds the entry of the last release, over all repositories, that resolves to that pair. Stated by `VpmBuilderProofs.IndexIsWellFormed` |
| VpmBuilder.CountVersions | scripts/vpm.mjs:361-364 | the reported total is the number of distinct (package, version) pairs in the map |
| VpmBuilderProofs.DraftReleaseContributesNothing | scripts/vpm.mjs:221 | a draft or prerelease leaves the loop's result exactly as if it were absent from the list |
| VpmBuilderProofs.ReleaseWithoutArchiveContributesNothing | scripts/vpm.mjs:224-229 | a release with no `.zip` asset changes neither the map nor the current package name |
| VpmBuilderProofs.FallbackWhenNoManifest | scripts/vpm.mjs:238-255 | without manifest data, the release is stored exactly when the tag minus one leading `v` is non-empty; the name is `com.` plus the slug with its first `/` turned into `.`; the version is the stripped tag |
| VpmBuilderProofs.FallbackEntryFields | scripts/vpm.mjs:241-246 | the fallback entry's display name is the slug's second `/`-segment, or undefined for a slug without `/`; its description is the first line of the release notes, or empty without notes; it has no field besides the four synthesized ones and the download fields |
| VpmBuilderProofs.FallbackData | scripts/vpm.mjs:231-247 | with no manifest asset, a failed fetch or a falsy value, the descriptor is the synthesized one |
| VpmBuilderProofs.FallbackIdentityOfSlug | scripts/vpm.mjs:242-243 | for a slug `owner/name`, the fallback name is `com.owner.name` and the display name is `name` |
| VpmBuilderProofs.FallbackForSlug | scripts/vpm.mjs:238-257 | a release of `owner/name` without manifest data and with a non-empty stripped tag is stored under `com.owner.name` at that version, with display name `name` |
| VpmBuilderProofs.ManifestUsedUnchanged | scripts/vpm.mjs:233-236 | a manifest object with truthy name and version is stored under its own name and version; apart from the download fields, the entry has exactly the manifest's fields with the manifest's values |
| VpmBuilderProofs.NonObjectManifestSkipped | scripts/vpm.mjs:231-255 | a manifest that parses to a truthy non-object is used as the descriptor; it has no name, so the release is skipped as invalid |
| VpmBuilderProofs.HashFieldsAgree | scripts/vpm.mjs:266-277 | `hash`, the `hashes` value at scripts/vpm.mjs:275 (`VpmBuilder.HashValue`), is an object holding exactly the md5, sha1, sha256 and sha512 digests, and `zipSHA256` equals its sha256 member |
| VpmBuilderProofs.InvalidDescriptorContributesNothing | scripts/vpm.mjs:249-255 | a descriptor with a falsy name or version changes neither the map nor the current package name |
| VpmBuilderProofs.ReleaseLoopLookup | scripts/vpm.mjs:220-280 | after the release loop, each (name, version) holds the entry of the last release resolving to it; keys no release resolves to keep their earlier value |
| VpmBuilderProofs.ProcessRepoLookup | scripts/vpm.mjs:206-328 | one repository's iteration (`VpmBuilder.ProcessRepo`) leaves, under each (name, version), the entry of that repository's last release resolving to it, or the earlier value when none does |
| VpmBuilderProofs.ProcessRepoEnrichesLastName | scripts/vpm.mjs:218-328 | one repository's iteration adds the repository fields to the package of its last stored release, when the profile is truthy; it changes no other package the release loop left |
| VpmBuilderProofs.EnrichKeepsLookup | scripts/vpm.mjs:326 | adding repository fields never changes the entry stored under a (name, version) key |
| VpmBuilderProofs.BuildLookup | scripts/vpm.mjs:206-280 | after all repositories, each (name, version) holds the entry of the last release of any repository resolving to it; other keys keep their starting value |
| VpmBuilderProofs.SharedNameMerges | scripts/vpm.mjs:260-277 | two repositories that publish the same package name at different versions give one package holding both versions |
| VpmBuilderProofs.ReleaseLoopCurrentName | scripts/vpm.mjs:257 | after the loop, the current package name is that of the last release that stored an entry, or the starting value if none did |
| VpmBuilderProofs.ReleaseLoopKeepsFields | scripts/vpm.mjs:260-264 | the release loop never removes a package or changes repository fields; packages it creates have none |
| VpmBuilderProofs.AddVersionKeepsWellFormed | scripts/vpm.mjs:260-277 | storing a matching entry keeps the map invariant: every package has a version, no `versions` field is shadowed, and every entry's name and version coerce to its keys |
| VpmBuilderProofs.AddedPackageWellFormed | scripts/vpm.mjs:270-277 | the package that just received an entry satisfies the invariant |
| VpmBuilderProofs.ReleaseLoopKeepsWellFormed | scripts/vpm.mjs:218-280 | the release loop keeps the invariant; a changed current name names a package in the map |
| VpmBuilderProofs.EnrichKeepsWellFormed | scripts/vpm.mjs:283-328 | enrichment keeps the invariant |
| VpmBuilderProofs.EnrichmentRule | scripts/vpm.mjs:292-327 | the enriched package's fields are the repository fields plus its own; its own fields win on a clash; its versions are untouched |
| VpmBuilderProofs.RepoTimestamps | scripts/vpm.mjs:323-325 | `created_at`, `updated_at` and `pushed_at` are the profile's values converted by the epoch function when truthy, and null otherwise. This is `VpmBuilder.EpochOrNull` |
| VpmBuilderProofs.RepoAddresses | scripts/vpm.mjs:284-290 | for a profile with string `html_url` and `default_branch`, the readme, changelog and licence addresses are `<html_url>/blob/<default_branch>/` plus the file name. This is the `VpmBuilder.BlobBase` prefix |
| VpmBuilderProofs.BuildKeepsWellFormed | scripts/vpm.mjs:206-329 | the repository loop keeps the invariant |
| VpmBuilderProofs.IndexIsWellFormed | scripts/vpm.mjs:202-348 | the output copies the feed identity from the configuration; every entry's name and version coerce to the package and version keys it is stored under; the entry under each (name, version) is that of the last release over all repositories resolving to it, and no other key exists |
| NaturalOrder.LeadingNumberDecides | src/app/vpm/page.tsx:190 | with `numeric: true`, keys whose leading numbers differ compare by the numbers' values, so `10.0` sorts after `9.0` |
| NaturalOrder.SharedNumberDefers | src/app/vpm/page.tsx:190 | keys that share a leading number and separator compare as the remainders do, so `1.10` sorts after `1.9` |
| NaturalOrder.LessAsymmetric | src/app/vpm/page.tsx:189-191 | the version comparison is irreflexive and asymmetric |
| NaturalOrder.NotLessTransitive | src/app/vpm/page.tsx:189-191 | "not before" is transitive, so the comparator is a consistent sort order |
| NaturalOrder.SortPermutes | src/app/vpm/page.tsx:189-191 | sorting keeps the multiset of every projection of the pairs: keys, links or the pairs themselves |
| NaturalOrder.SortIsSorted | src/app/vpm/page.tsx:189-191 | after sorting, no key is followed by a key that sorts after it |
| NaturalOrder.SortMembers | src/app/vpm/page.tsx:189-191 | sorting introduces no pair the input lacks |
| NaturalOrder.FirstIsEarliestGreatest | src/app/vpm/page.tsx:189-192 | the stable sort puts first the earliest pair among those with a greatest key; every pair before it in the input sorts strictly before it |
| NaturalOrder.FirstIsGreatest | src/app/vpm/page.tsx:189-192 | the first key after sorting is one no key of the input sorts after |
| VpmCatalog.DetectCategory | src/app/vpm/page.tsx:116-122 | no dependency object gives tool; avatar exactly when a dependency name contains `avatars`; world exactly when none does and one contains `worlds` or `udonsharp`; tool otherwise |
| VpmCatalog.NoDependenciesIsTool | src/app/vpm/page.tsx:117 | a package without dependencies is a tool |
| VpmCatalog.AnyKeyIff | src/app/vpm/page.tsx:119-120 | `keys.some(p)` holds exactly when some key satisfies `p` |
| VpmCatalog.ToPackageInfo | src/app/vpm/page.tsx:188-218 | one version is listed per key, and the category agrees with the dependencies shown. Which entry the record shows is stated by `VpmCatalog.PackageInfoShowsLatest` and `VpmCatalog.LatestIsEarliestGreatest` |
| VpmCatalog.PackageInfoShowsLatest | src/app/vpm/page.tsx:188-213 | the record shows the entry stored under a greatest version key, with display name falling back to the name and description to empty; the first listed version is that key; there is one listed version per key |
| VpmCatalog.LatestIsEarliestGreatest | src/app/vpm/page.tsx:189-192 | among keys that compare equal to the greatest (such as `1.0` and `1.00`), the record shows the entry whose key comes first in the table |
| VpmCatalog.AllVersionsDescending | src/app/vpm/page.tsx:214-217 | `allVersions` lists the versions newest first |
| VpmCatalog.AllVersionsPermutes | src/app/vpm/page.tsx:214-217 | `allVersions` holds each (version, url) pair of the package as often as the table does, and nothing else |
| VpmCatalog.AllVersionsKeys | src/app/vpm/page.tsx:189-191 | the versions listed are a rearrangement of the package's version keys |
| VpmCatalog.LoadPackages | src/app/vpm/page.tsx:188-223 | one record per package, in entry order, when every package has a version; an empty list when some package has none |
| VpmCatalog.FilterPackages | src/app/vpm/page.tsx:232-238 | every package shown passes the filter; each package passing the filter is shown as often as it occurs; the order is kept |
| VpmCatalog.KeepIff | src/app/vpm/page.tsx:232-238 | a package passes exactly when the category filter is `all` or equals its category, and the lower-cased term occurs in its lower-cased name, display name or description |
| VpmCatalog.ShowAllKeepsEverything | src/app/vpm/page.tsx:232-238 | filter `all` with an empty search shows every package |
| VpmCatalog.CategoryCount | src/app/vpm/page.tsx:344 | a button's count is at most the number of packages, and zero exactly when no package has that category |
| VpmCatalog.CountsSum | src/app/vpm/page.tsx:341-345 | the three counts add up to the number of packages |
| VpmCatalog.CountIsFilteredLength | src/app/vpm/page.tsx:344 | a button's count equals the length of the list that category shows with an empty search |
| VpmCatalog.VisibleCategories | src/app/vpm/page.tsx:341-345 | a button is shown exactly when some package has its category, in the order world, avatar, tool |
| PrimaryColour.FindFirst | src/app/vpm/page.tsx:156 | an unanchored match returns the match at the leftmost position where one exists, and nothing when none exists |
| PrimaryColour.RgbToHex | src/app/vpm/page.tsx:156-161 | there is a colour exactly when the text contains an `rgb(...)` match; the colour is built from the captures of the leftmost match |
| PrimaryColour.UpdateColour | src/app/vpm/page.tsx:144-163 | a blank `--fd-primary` keeps the current colour; otherwise the colour becomes the hex of the computed text, or stays unchanged if that has no match |
| PrimaryColour.HexOfShape | src/app/vpm/page.tsx:158-160 | for channels below 256 the colour is `#` plus six lower-case hex digits, and each pair reads back as its channel |
| PrimaryColour.RgbTextToHex | src/app/vpm/page.tsx:156-161 | the text `rgb(r,<spaces>g,<spaces>b)` becomes the hex colour of r, g and b |
| PrimaryColour.ParseIntOfDecimal | src/app/vpm/page.tsx:159 | `parseInt` reads a decimal numeral back as its number |
| PrimaryColour.MatchAt | src/app/vpm/page.tsx:156 | a match starts with `rgb(`; its full shape is stated by `PrimaryColour.MatchAtIff`, and the leftmost search by `PrimaryColour.RgbToHex` |
| PrimaryColour.MatchAtIff | src/app/vpm/page.tsx:156 | the pattern matches at the start of a text with captures c exactly when the text is `rgb(`, c's first digit run, `,`, white space, the second run, `,`, white space, the third run and `)`, followed by anything |
| PrimaryColour.MatchAtShape | src/app/vpm/page.tsx:156 | every match has that shape, and its captures are the three non-empty digit runs of the text |
| PrimaryColour.ShapeMatches | src/app/vpm/page.tsx:156 | every text of that shape matches, and the captures are its own three digit runs |
| PrimaryColour.FieldSplit | src/app/vpm/page.tsx:156 | one `\s*(\d+)` group and the character after it: the text read is white space, a non-empty digit run and that character, followed by the rest |
| PrimaryColour.ColourFromSomeRun | src/app/vpm/page.tsx:140-169 | after `updateColor` has run on mounting and on each theme change, the colour is `#888888` or the colour set by one of the runs |
| PrimaryColour.NoRunKeepsInitial | src/app/vpm/page.tsx:140-169 | while no run finds a non-blank `--fd-primary` with an `rgb(...)` colour, the colour stays `#888888` |
| PrimaryColour.LatestRunDecides | src/app/vpm/page.tsx:140-169 | the latest run that sets a colour decides the colour shown |
| PrimaryColour.SpaceRunSpaces | src/app/vpm/page.tsx:146 | the white-space run taken by `\s*` and `trim` is all white space |
| Strings.IncludesIff | src/app/vpm/page.tsx:235-237 | `includes` holds exactly when the needle occurs at some position |
| Strings.HexByte | src/app/vpm/page.tsx:159 | `toString(16).padStart(2, '0')` of a byte gives two lower-case hex digits that read back as the byte |
| Strings.ReplaceFirst | scripts/vpm.mjs:242 | replacing a character changes only its first occurrence |
| Strings.SecondSegment | scripts/vpm.mjs:243 | `split(sep)[1]` is the text between the first and second separator, or the rest of the text |
| Strings.FirstLine | scripts/vpm.mjs:245 | `split('\n')[0]` is the text before the first newline |

## Left out

- Network and file I/O are inputs to the model, not part of it. This covers
  the fetches of releases, manifests, profiles, languages, contributors and
  commit activity; the archive hashing; JSON parsing of fetched text; and
  reading the configuration and writing the output file. Each result is a
  field of `VpmBuilder.ReleaseInput` or `VpmBuilder.RepoInput`. The model
  covers only the failures the script absorbs:
  - a non-OK HTTP status, which gives `null`, `[]` or `{}` (scripts/vpm.mjs:34-37, 56-59, 78, 97, 122, 189);
  - a manifest body that is not JSON, which gives `null` (scripts/vpm.mjs:192-196);
  - a commit-activity body that is not an array, which gives `[]` (scripts/vpm.mjs:125);
  - any failure while hashing, which gives `null` (scripts/vpm.mjs:144-158).
- A fetch that throws aborts the run with no output, and the model does not
  represent this. The cases are:
  - a rejected `fetch` in any of the six fetch helpers;
  - a body that is not JSON for the releases, profile, languages, contributors
    or commit activity;
  - a contributors body that is not an array (scripts/vpm.mjs:99);
  - a releases body that is not iterable.

  Any of these rejects `buildPackages`; `build().catch` then exits with
  status 1 before writing the file (scripts/vpm.mjs:368-371). The model
  always produces a document, so it describes only runs in which every fetch
  settles.
- The configuration's repository list is a sequence; when the list is missing
  it is the empty sequence.
- Console logging is not modelled; it does not affect the document.
- The five fetches per repository run concurrently (`Promise.all`). The model
  sees only their results.
- Date parsing in `created_at`, `updated_at` and `pushed_at`
  (`Math.floor(new Date(x).getTime() / 1000)`) is the parameter `toEpoch`.
  Only the truthiness guard around it is modelled.
- The model's index is the object before `JSON.stringify`. Serialising
  drops keys whose value is `undefined`, so the written file lacks them:
  the fallback `displayName` of a repository slug without `/`
  (scripts/vpm.mjs:243), `license` when the repository has none
  (scripts/vpm.mjs:310), and the owner fields when the repository information
  lacks them (scripts/vpm.mjs:293-297).
  Key sets such as the one `VpmBuilderProofs.FallbackEntryFields` states are
  those of the object.
- The key order of the builder's maps, and so the order of the keys in the
  output JSON, is not modelled. Maps here are unordered.
- Keys inherited from `Object.prototype` (a package named `constructor`, for
  example) are not modelled. A key is present only when it was stored.
- JSON numbers are integers; floating point is not modelled. `String()` of a
  value is therefore its decimal text.
- NaturalOrder.Less: the ICU collation behind `localeCompare(..., {numeric: true})`
  is simplified. Digit runs compare by value and sort before other
  characters, and other characters compare by code point. Case and accent
  folding and locale tailoring are not modelled.
- Strings.ToLower: lower-cases only ASCII letters; Unicode case mapping is not
  modelled.
- PrimaryColour.ParseInt: exact for every digit string. The source converts
  to a double, which loses precision above 2^53. Browsers never produce such
  channels.
- The browser's conversion of `--fd-primary` into a computed `rgb(...)` text
  is a parameter (`computed`). The DOM element, `MutationObserver` and React
  state are not modelled. Each run of `updateColor` is a `PrimaryColour.Run`,
  and the colour after a series of them is `PrimaryColour.ColourAfter`.
- The catalog's input is assumed to match the page's TypeScript interfaces.
  Names and versions are strings, and the dependency object is given by its
  list of keys. A `VersionTable` may repeat a key; a JSON object cannot, and
  no property needs distinct keys.
- The record fields that the page copies from the latest entry without
  reading them are left out: unity, unityRelease, license, changelogUrl,
  documentationUrl, licensesUrl, type, author, contributors, dependencies,
  samples and keywords.
- The user interface is left out: the modal, the copy-to-clipboard button,
  the VCC deep link (`encodeURIComponent`), icons and styling.
- The tag is stripped of exactly one leading lower-case `v`, as in
  `scripts/vpm.mjs:240`. Other prefixes are kept.
