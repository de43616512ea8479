/** The update decision engine of `update_mods.js`: the fork step, the dispatch on
    `mod.source`, the archived gate and the choice of action, the commit rule of
    `main` and the fork de-duplication of `addFork`. The release adapters are
    parameters; reading and writing `mods_config.json`, downloading and moving
    files are not modelled, their outcomes are inputs. */
module UpdateMods {
  import opened Values
  import opened JsString
  import opened JarFile
  import opened ModConfig
  import opened ModApi
  import VersionCheck
  import ArchiveCheck

  // ------------------------------------------------------------- fork step

  /** The adapter the fork step calls: one injected through `options` (tests pass
      one returning the raw release, with `assets`), or the default GitHub
      adapter, whose normalised record has no `assets` field. */
  datatype ForkAdapter =
    | Injected(raw: string -> Option<GhRelease>)
    | DefaultAdapter(normalized: Option<string> -> Option<GithubInfo>)

  /** What `getForkReleaseInfo` returns for a qualifying fork (its `valid` is always true). */
  datatype ForkInfo = ForkInfo(version: Option<string>, stability: string, downloadUrl: Option<string>, fileName: string)

  /** `/github\.com[/:](.+?)(?:\.git)?$/` matches from `p`: `github.com`, then `/` or
      `:`, then at least one character and no line terminator up to the end. */
  predicate ForkPatternAt(s: string, p: nat) {
    && p + 11 < |s| && s[p..p + 10] == "github.com" && (s[p + 10] == '/' || s[p + 10] == ':')
    && forall i :: p + 11 <= i < |s| ==> !IsLineTerminator(s[i])
  }

  /** The fork URL matches the GitHub pattern somewhere. */
  predicate MatchesForkPattern(s: string) {
    exists p: nat | p < |s| :: ForkPatternAt(s, p)
  }

  /** `getForkReleaseInfo(forkUrl, mod, options)`: `null` for a URL that is not on
      GitHub, and otherwise the first `.jar` asset of the release the adapter
      gives. The asset search calls `a.name.endsWith`, so an asset without a name
      before the first jar throws, and nothing here catches it. */
  function GetForkReleaseInfo(forkUrl: string, adapter: ForkAdapter): (r: Result<Option<ForkInfo>, string>)
    ensures !MatchesForkPattern(forkUrl) ==> r == Ok(None)
    ensures adapter.DefaultAdapter? ==> r == Ok(None)
    ensures r.Err? ==> r.error == MissingFilenameMessage
    ensures r != Ok(None) <==>
      && MatchesForkPattern(forkUrl) && adapter.Injected?
      && adapter.raw(forkUrl).Some? && adapter.raw(forkUrl).value.assets.Some?
      && FindFirst(adapter.raw(forkUrl).value.assets.value, GhStops) >= 0
    ensures r.Ok? && r.value.Some? ==>
      var rel := adapter.raw(forkUrl).value;
      var a := rel.assets.value[FindFirst(rel.assets.value, GhStops)];
      && a.name.Some? && EndsWith(r.value.value.fileName, ".jar")
      && r.value.value.fileName == a.name.value
      && r.value.value.downloadUrl == a.browserDownloadUrl
      && r.value.value.version == rel.tagName
      && (r.value.value.stability == "beta" <==> rel.prerelease)
      && (r.value.value.stability == "release" <==> !rel.prerelease)
  {
    if !MatchesForkPattern(forkUrl) then Ok(None)
    else
      match adapter
      case DefaultAdapter(_) => Ok(None)
      case Injected(lookup) =>
        match lookup(forkUrl)
        case None => Ok(None)
        case Some(rel) =>
          match rel.assets
          case None => Ok(None)
          case Some(assets) =>
            var k := FindFirst(assets, GhStops);
            if k < 0 then Ok(None)
            else if assets[k].name.None? then Err(MissingFilenameMessage)
            else Ok(Some(ForkInfo(rel.tagName, Stability(rel.prerelease), assets[k].browserDownloadUrl, assets[k].name.value)))
  }

  /** The fork chosen by the scan: its position and its release. */
  datatype ForkChoice = ForkChoice(index: nat, info: ForkInfo)

  predicate ForkDeclines(forkUrl: string, adapter: ForkAdapter) {
    GetForkReleaseInfo(forkUrl, adapter) == Ok(None)
  }

  /** What `getForkReleaseInfo` gives for each fork, in list order. */
  function ForkResults(forks: seq<string>, adapter: ForkAdapter): (r: seq<Result<Option<ForkInfo>, string>>)
    ensures |r| == |forks|
    ensures forall j :: 0 <= j < |forks| ==> r[j] == GetForkReleaseInfo(forks[j], adapter)
  {
    seq(|forks|, j requires 0 <= j < |forks| => GetForkReleaseInfo(forks[j], adapter))
  }

  /** `for (const forkUrl of mod.forks)` over the per-fork results from position
      `i`: the first fork that qualifies wins, and an error stops the scan. */
  function FirstFork(results: seq<Result<Option<ForkInfo>, string>>, i: nat): (r: Result<Option<ForkChoice>, string>)
    requires i <= |results|
    ensures r == Ok(None) <==> forall j :: i <= j < |results| ==> results[j] == Ok(None)
    ensures r.Ok? && r.value.Some? ==>
      var k := r.value.value.index;
      && i <= k < |results|
      && results[k] == Ok(Some(r.value.value.info))
      && forall j :: i <= j < k ==> results[j] == Ok(None)
    ensures r.Err? ==> exists k :: && i <= k < |results| && results[k] == Err(r.error)
                                   && forall j :: i <= j < k ==> results[j] == Ok(None)
    decreases |results| - i
  {
    if i == |results| then Ok(None)
    else if results[i].Err? then Err(results[i].error)
    else if results[i].value.Some? then Ok(Some(ForkChoice(i, results[i].value.value)))
    else FirstFork(results, i + 1)
  }

  /** The fork step of `getModUpdateInfo`. */
  function ForkScan(forks: seq<string>, adapter: ForkAdapter): (r: Result<Option<ForkChoice>, string>)
    ensures r == Ok(None) <==> forall j :: 0 <= j < |forks| ==> ForkDeclines(forks[j], adapter)
    ensures r.Ok? && r.value.Some? ==>
      var k := r.value.value.index;
      && k < |forks|
      && GetForkReleaseInfo(forks[k], adapter) == Ok(Some(r.value.value.info))
      && forall j :: 0 <= j < k ==> ForkDeclines(forks[j], adapter)
    ensures r.Err? ==> r.error == MissingFilenameMessage
  {
    var results := ForkResults(forks, adapter);
    var r := FirstFork(results, 0);
    assert r.Err? ==> r.error == MissingFilenameMessage by {
      if r.Err? {
        var k :| 0 <= k < |results| && results[k] == Err(r.error);
        assert GetForkReleaseInfo(forks[k], adapter).Err?;
      }
    }
    r
  }

  /** The scan stops at the first fork that does not decline. */
  lemma {:induction false} FirstForkFinds(results: seq<Result<Option<ForkInfo>, string>>, i: nat, k: nat)
    requires i <= k < |results|
    requires forall j :: i <= j < k ==> results[j] == Ok(None)
    requires results[k] != Ok(None)
    ensures results[k].Err? ==> FirstFork(results, i) == Err(results[k].error)
    ensures results[k].Ok? ==> FirstFork(results, i) == Ok(Some(ForkChoice(k, results[k].value.value)))
    decreases k - i
  {
    if i < k {
      FirstForkFinds(results, i + 1, k);
    }
  }

  /** With the default GitHub adapter, which is what `main` uses, no fork ever
      qualifies: its record carries no `assets`. */
  lemma DefaultForkNeverQualifies(forks: seq<string>, lookup: Option<string> -> Option<GithubInfo>)
    ensures ForkScan(forks, DefaultAdapter(lookup)) == Ok(None)
  {
  }

  // ------------------------------------------------------------ primary path

  /** The fields of `latestReleaseInfo` the decision reads, whatever adapter made it. */
  datatype ReleaseRecord = ReleaseRecord(
    found: bool, archived: bool,
    fileUrl: Option<string>, downloadUrl: Option<string>, fileName: Option<string>,
    latestVersion: Option<string>, version: Option<string>,
    latestStability: Option<string>, stability: Option<string>)

  /** A record carrying none of those fields. */
  const EmptyRecord: ReleaseRecord := ReleaseRecord(false, false, None, None, None, None, None, None, None)

  function ModrinthRecord(info: ModrinthInfo): (r: ReleaseRecord)
    ensures r.found <==> info.MrFound?
    ensures !r.archived
  {
    match info
    case MrFound(fileUrl, fileName, latestVersion, latestStability, _, _, _) =>
      ReleaseRecord(true, false, fileUrl, None, Some(fileName), latestVersion, None, latestStability, None)
    case MrNotFound(_, _, _) => EmptyRecord
  }

  function GithubRecord(info: GithubInfo): (r: ReleaseRecord)
    ensures r.found && !r.archived
  {
    ReleaseRecord(true, false, info.fileUrl, None, Some(info.fileName), info.latestVersion, None, Some(info.latestStability), None)
  }

  /** The GitLab record has `tag_name`, `prerelease` and `assets` only, so every
      field the decision reads is missing, `found` included. */
  function GitlabRecord(info: GitlabInfo): (r: ReleaseRecord)
    ensures !r.found && !r.archived
  {
    EmptyRecord
  }

  /** `latestReleaseInfo` after the dispatch on `mod.source`. Modrinth is asked with
      `mod.id`; GitHub and GitLab are both given `mod.owner` as their only
      repository argument (`mod.repo` is passed too but neither adapter has a
      second parameter). An unknown source leaves it `null`, and a rejected
      Modrinth request rejects the whole call. */
  function PrimaryRelease(mod: ModEntry, mcVersion: string, upstream: Upstream): (r: Result<Option<ReleaseRecord>, string>)
    ensures !IsSupportedSource(mod.source) ==> r == Ok(None)
    ensures r.Err? ==> IsModrinthSource(mod.source) && upstream.modrinth(mod.id, mcVersion) == Err(r.error)
    ensures IsModrinthSource(mod.source) && upstream.modrinth(mod.id, mcVersion).Ok? ==>
      r == Ok(Some(ModrinthRecord(upstream.modrinth(mod.id, mcVersion).value)))
    ensures IsGithubSource(mod.source) ==>
      r == Ok(if upstream.github(mod.owner).Some? then Some(GithubRecord(upstream.github(mod.owner).value)) else None)
    ensures IsGitlabSource(mod.source) ==> r.Ok? && (r.value.None? || !r.value.value.found)
  {
    if IsModrinthSource(mod.source) then
      var info :- upstream.modrinth(mod.id, mcVersion);
      Ok(Some(ModrinthRecord(info)))
    else if IsGithubSource(mod.source) then
      match upstream.github(mod.owner)
      case None => Ok(None)
      case Some(info) => Ok(Some(GithubRecord(info)))
    else if IsGitlabSource(mod.source) then
      match upstream.gitlab(mod.owner)
      case None => Ok(None)
      case Some(info) => Ok(Some(GitlabRecord(info)))
    else Ok(None)
  }

  // -------------------------------------------------------------- decision

  datatype Action = Skip | Simulate | Download

  datatype Options = Options(dryRun: bool, updateConfigOnly: bool, mcVersion: string)

  /** The object `getModUpdateInfo` resolves to (its `valid` is always true). */
  datatype UpdateInfo = UpdateInfo(
    action: Action, source: Option<string>, forkUrl: Option<string>,
    version: Option<string>, stability: Option<string>,
    fileUrl: Option<string>, fileName: Option<string>,
    slug: Option<string>, projectName: Option<string>)

  /** The decision for a qualifying fork. */
  function ForkDecision(mod: ModEntry, opts: Options, forkUrl: string, info: ForkInfo): (r: UpdateInfo)
    ensures r.source == Some("FORK") && r.forkUrl == Some(forkUrl)
    ensures r.action == Simulate <==> opts.dryRun || opts.updateConfigOnly
    ensures r.action == Download <==> !opts.dryRun && !opts.updateConfigOnly
    ensures r.version == info.version && r.stability == Some(info.stability)
    ensures r.fileUrl == info.downloadUrl && r.fileName == Some(info.fileName)
    ensures r.slug == mod.slug && r.projectName == mod.name
  {
    UpdateInfo(if opts.dryRun || opts.updateConfigOnly then Simulate else Download,
               Some("FORK"), Some(forkUrl), info.version, Some(info.stability),
               info.downloadUrl, Some(info.fileName), mod.slug, mod.name)
  }

  /** The archived gate and the choice of action on the primary path. */
  function Decide(mod: ModEntry, opts: Options, info: Option<ReleaseRecord>): (r: UpdateInfo)
    ensures r.action == Simulate <==> opts.dryRun && info.Some? && info.value.found
    ensures r.action == Download <==> !opts.dryRun && info.Some? && info.value.found && !info.value.archived
    ensures r.source == mod.source && r.forkUrl.None? && r.slug == mod.slug && r.projectName == mod.name
    ensures info.None? ==> r.version.None? && r.stability.None? && r.fileUrl.None? && r.fileName.None?
    ensures info.Some? ==>
      && (Truthy(info.value.latestVersion) ==> r.version == info.value.latestVersion)
      && (!Truthy(info.value.latestVersion) ==> r.version == info.value.version)
      && (Truthy(info.value.latestStability) ==> r.stability == info.value.latestStability)
      && (!Truthy(info.value.latestStability) ==> r.stability == info.value.stability)
      && (Truthy(info.value.fileUrl) ==> r.fileUrl == info.value.fileUrl)
      && (!Truthy(info.value.fileUrl) ==> r.fileUrl == info.value.downloadUrl)
      && r.fileName == info.value.fileName
  {
    var found := info.Some? && info.value.found;
    var isArchived := info.Some? && info.value.archived;
    var action := if opts.dryRun && found then Simulate
                  else if found && !isArchived then Download
                  else Skip;
    match info
    case None => UpdateInfo(action, mod.source, None, None, None, None, None, mod.slug, mod.name)
    case Some(rec) =>
      UpdateInfo(action, mod.source, None,
                 OrElse(rec.latestVersion, rec.version), OrElse(rec.latestStability, rec.stability),
                 OrElse(rec.fileUrl, rec.downloadUrl), rec.fileName, mod.slug, mod.name)
  }

  /** The forks of a mod, or none when `mod.forks` is not an array. */
  function ForksOf(mod: ModEntry): seq<string> {
    if mod.forks.Some? then mod.forks.value else []
  }

  /** `getModUpdateInfo(mod, options)`: the forks first, in order, then the primary
      source. A rejection inside either step rejects the call. */
  function GetModUpdateInfo(mod: ModEntry, opts: Options, forkAdapter: ForkAdapter, upstream: Upstream): (r: Result<UpdateInfo, string>)
    ensures ForkScan(ForksOf(mod), forkAdapter).Err? ==> r == Err(ForkScan(ForksOf(mod), forkAdapter).error)
    ensures ForkScan(ForksOf(mod), forkAdapter).Ok? && ForkScan(ForksOf(mod), forkAdapter).value.Some? ==>
      var c := ForkScan(ForksOf(mod), forkAdapter).value.value;
      r == Ok(ForkDecision(mod, opts, ForksOf(mod)[c.index], c.info))
    ensures ForkScan(ForksOf(mod), forkAdapter) == Ok(None) ==>
      && (PrimaryRelease(mod, opts.mcVersion, upstream).Err? ==> r == Err(PrimaryRelease(mod, opts.mcVersion, upstream).error))
      && (PrimaryRelease(mod, opts.mcVersion, upstream).Ok? ==> r == Ok(Decide(mod, opts, PrimaryRelease(mod, opts.mcVersion, upstream).value)))
  {
    var forks := ForksOf(mod);
    match ForkScan(forks, forkAdapter)
    case Err(e) => Err(e)
    case Ok(Some(c)) => Ok(ForkDecision(mod, opts, forks[c.index], c.info))
    case Ok(None) =>
      var info :- PrimaryRelease(mod, opts.mcVersion, upstream);
      Ok(Decide(mod, opts, info))
  }

  /** Forks are tried in list order: when fork `k` is the first that does not
      decline and it qualifies, it decides, and the primary source is never
      consulted. */
  lemma ForkPriority(mod: ModEntry, opts: Options, adapter: ForkAdapter, upstream: Upstream, other: Upstream, k: nat, info: ForkInfo)
    requires k < |ForksOf(mod)|
    requires forall j :: 0 <= j < k ==> ForkDeclines(ForksOf(mod)[j], adapter)
    requires GetForkReleaseInfo(ForksOf(mod)[k], adapter) == Ok(Some(info))
    ensures GetModUpdateInfo(mod, opts, adapter, upstream) == Ok(ForkDecision(mod, opts, ForksOf(mod)[k], info))
    ensures GetModUpdateInfo(mod, opts, adapter, upstream) == GetModUpdateInfo(mod, opts, adapter, other)
  {
    FirstForkFinds(ForkResults(ForksOf(mod), adapter), 0, k);
  }

  /** The scenario of the fork test: the first fork has no release, the second a
      release with one `.jar` asset; in a dry run the second fork is chosen and
      the primary source is not asked. */
  lemma ForkTestScenario(mod: ModEntry, opts: Options, raw: string -> Option<GhRelease>, upstream: Upstream,
                         u1: string, u2: string, u3: string, tag: string, name: string, url: string)
    requires ForksOf(mod) == [u1, u2, u3]
    requires raw(u1).None?
    requires MatchesForkPattern(u2) && EndsWith(name, ".jar")
    requires raw(u2) == Some(GhRelease(Some(tag), false, Some([GhAsset(Some(name), Some(url))])))
    requires opts.dryRun
    ensures GetModUpdateInfo(mod, opts, Injected(raw), upstream)
            == Ok(UpdateInfo(Simulate, Some("FORK"), Some(u2), Some(tag), Some("release"), Some(url), Some(name), mod.slug, mod.name))
  {
    assert ForkDeclines(ForksOf(mod)[0], Injected(raw));
    var assets := [GhAsset(Some(name), Some(url))];
    assert GhStops(assets[0]);
    assert FindFirst(assets, GhStops) == 0;
    ForkPriority(mod, opts, Injected(raw), upstream, upstream, 1, ForkInfo(Some(tag), "release", Some(url), name));
  }

  /** With no qualifying fork, the action on the primary path: `simulate` iff a dry
      run found a release, `download` iff a real run found a release that is not
      archived, else `skip`. An archived release is never downloaded, and
      `updateConfigOnly` plays no part. */
  lemma PrimaryAction(mod: ModEntry, opts: Options, adapter: ForkAdapter, upstream: Upstream)
    requires ForkScan(ForksOf(mod), adapter) == Ok(None)
    requires PrimaryRelease(mod, opts.mcVersion, upstream).Ok?
    ensures var info := PrimaryRelease(mod, opts.mcVersion, upstream).value;
            var r := GetModUpdateInfo(mod, opts, adapter, upstream);
            && r.Ok?
            && (r.value.action == Simulate <==> opts.dryRun && info.Some? && info.value.found)
            && (r.value.action == Download <==> !opts.dryRun && info.Some? && info.value.found && !info.value.archived)
            && (r.value.action == Skip <==> info.None? || !info.value.found || (!opts.dryRun && info.value.archived))
            && r.value.source == mod.source
    ensures GetModUpdateInfo(mod, opts, adapter, upstream)
            == GetModUpdateInfo(mod, opts.(updateConfigOnly := !opts.updateConfigOnly), adapter, upstream)
  {
  }

  /** A source outside the six recognised names, with no qualifying fork, is
      skipped with no version, stability or file. */
  lemma UnsupportedSourceSkips(mod: ModEntry, opts: Options, adapter: ForkAdapter, upstream: Upstream)
    requires ForkScan(ForksOf(mod), adapter) == Ok(None)
    requires !IsSupportedSource(mod.source)
    ensures GetModUpdateInfo(mod, opts, adapter, upstream)
            == Ok(UpdateInfo(Skip, mod.source, None, None, None, None, None, mod.slug, mod.name))
  {
  }

  /** A GitLab primary source is always skipped: the GitLab record has no `found`. */
  lemma GitlabNeverDownloads(mod: ModEntry, opts: Options, adapter: ForkAdapter, upstream: Upstream)
    requires ForkScan(ForksOf(mod), adapter) == Ok(None)
    requires IsGitlabSource(mod.source)
    ensures GetModUpdateInfo(mod, opts, adapter, upstream).Ok?
    ensures GetModUpdateInfo(mod, opts, adapter, upstream).value.action == Skip
  {
  }

  /** In `main` no adapter is injected, so the forks never matter: the decision is
      the primary one. */
  lemma MainIgnoresForks(mod: ModEntry, opts: Options, upstream: Upstream)
    ensures GetModUpdateInfo(mod, opts, DefaultAdapter(upstream.github), upstream)
            == GetModUpdateInfo(mod.(forks := None), opts, DefaultAdapter(upstream.github), upstream)
  {
    DefaultForkNeverQualifies(ForksOf(mod), upstream.github);
  }

  // ---------------------------------------------------------- commit rule

  /** `updateModConfig(mod, updateInfo)`: `latest_version` and `latest_stability`
      are overwritten only by truthy values; nothing else changes. */
  function UpdateModConfig(mod: ModEntry, info: UpdateInfo): (r: ModEntry)
    ensures Truthy(info.version) ==> r.latestVersion == info.version
    ensures !Truthy(info.version) ==> r.latestVersion == mod.latestVersion
    ensures Truthy(info.stability) ==> r.latestStability == info.stability
    ensures !Truthy(info.stability) ==> r.latestStability == mod.latestStability
    ensures r.(latestVersion := mod.latestVersion, latestStability := mod.latestStability) == mod
  {
    mod.(latestVersion := OrElse(info.version, mod.latestVersion),
         latestStability := OrElse(info.stability, mod.latestStability))
  }

  /** Applying the same update twice changes nothing more. */
  lemma UpdateModConfigIdempotent(mod: ModEntry, info: UpdateInfo)
    ensures UpdateModConfig(UpdateModConfig(mod, info), info) == UpdateModConfig(mod, info)
  {
  }

  /** What `handleDownloadAndVersionCheck` does: whether it reached `downloadFile`,
      and whether the config may be committed. */
  datatype DownloadResult = DownloadResult(downloaded: bool, ok: bool)

  /** No `.jar` of the listing other than the file about to be downloaded. */
  predicate NoOtherJar(listing: seq<string>, fileName: Option<string>) {
    forall k :: 0 <= k < |listing| && ArchiveCheck.IsJar(listing[k]) ==> Some(listing[k]) == fileName
  }

  /** Picky mode's archive step goes through: `mods/` of `archive_check.js` exists
      and holds no other `.jar`. */
  predicate PickyPasses(listing: Option<seq<string>>, fileName: Option<string>) {
    listing.Some? && NoOtherJar(listing.value, fileName)
  }

  /** `handleDownloadAndVersionCheck(mod, updateInfo, picky, mcVersion)`, given the
      listing of the `mods/` directory `archive_check.js` works on (`None` when it
      does not exist), the outcome of the download and the downloaded archive.
      Picky mode first calls `archiveExistingModFiles` as it is written, which
      throws when that directory is missing or holds any other `.jar`, so the
      catch returns false before anything is downloaded or moved. A missing file
      name makes `path.join` throw, also before the download. Otherwise the
      result is true iff the version extracted from the downloaded jar is the
      target; a mismatched jar is left in place. */
  function HandleDownloadAndVersionCheck(picky: bool, listing: Option<seq<string>>, fileName: Option<string>,
                                         download: Outcome, jar: Jar, mcVersion: string): (r: DownloadResult)
    ensures r.downloaded <==> fileName.Some? && (!picky || PickyPasses(listing, fileName))
    ensures r.ok <==> r.downloaded && download.Pass? && VersionCheck.ExtractFabricMinecraftVersion(jar) == VersionCheck.Version(mcVersion)
  {
    // `undefined` differs from every listed name, and so does "": no `.jar` name is empty.
    var archiving :=
      if !picky then Ok([])
      else if listing.None? then Err(ArchiveCheck.NoModsDirError)
      else ArchiveCheck.ArchiveExistingModFilesAsWritten(listing.value, fileName.GetOr(""));
    if archiving.Err? || fileName.None? then DownloadResult(false, false)
    else DownloadResult(true, download.Pass? && VersionCheck.ExtractFabricMinecraftVersion(jar) == VersionCheck.Version(mcVersion))
  }

  /** In picky mode any other `.jar` in the `mods/` of `archive_check.js` makes the
      call fail before the download. */
  lemma PickyOtherJarFails(listing: seq<string>, fileName: Option<string>, download: Outcome, jar: Jar, mcVersion: string, k: nat)
    requires k < |listing| && ArchiveCheck.IsJar(listing[k]) && Some(listing[k]) != fileName
    ensures HandleDownloadAndVersionCheck(true, Some(listing), fileName, download, jar, mcVersion) == DownloadResult(false, false)
  {
  }

  /** Picky mode as written goes ahead exactly when the repaired
      `archiveExistingModFiles` would have had nothing to move; then it agrees with
      a run that is not picky. */
  lemma PickyAsWrittenVersusRepaired(listing: seq<string>, name: string, download: Outcome, jar: Jar, mcVersion: string)
    ensures HandleDownloadAndVersionCheck(true, Some(listing), Some(name), download, jar, mcVersion).downloaded
            <==> ArchiveCheck.ArchiveExistingModFiles(listing, name, false) == []
    ensures HandleDownloadAndVersionCheck(true, Some(listing), Some(name), download, jar, mcVersion).ok
            <==> HandleDownloadAndVersionCheck(false, Some(listing), Some(name), download, jar, mcVersion).ok
                 && ArchiveCheck.ArchiveExistingModFiles(listing, name, false) == []
  {
    var moved := ArchiveCheck.ArchiveExistingModFiles(listing, name, false);
    if moved != [] {
      assert moved[0] in listing && ArchiveCheck.IsJar(moved[0]) && moved[0] != name;
    }
  }

  /** With `testmod-1.0.jar` still in `mods/`, picky mode fails on
      `testmod-1.1.jar` whatever the download and the jar would have given. */
  lemma PickyWithOlderJarFails(stale: string, current: string, download: Outcome, jar: Jar, mcVersion: string)
    requires stale == "testmod-1.0.jar" && current == "testmod-1.1.jar"
    ensures HandleDownloadAndVersionCheck(true, Some([stale, current]), Some(current), download, jar, mcVersion) == DownloadResult(false, false)
  {
    assert stale[|stale| - 4..] == ".jar";
    assert stale[10] != current[10];
    assert [stale, current][0] == stale;
  }

  // ------------------------------------------------------------------ main

  /** The flags `main` receives. */
  datatype MainOptions = MainOptions(dryRun: bool, updateConfigOnly: bool, picky: bool, mcVersion: string)

  /** What the file system and the network give `main`: the adapters, the
      `mods/` directory of `archive_check.js`, the outcome of
      `downloadFile(file_url, path)` and the archive then found at the file name.
      The downloads go to another directory, `mods/` two levels above the
      script, so nothing a run downloads shows up in `archiveDir`. */
  datatype Env = Env(
    upstream: Upstream,
    archiveDir: ArchiveCheck.ModsDir,
    download: (Option<string>, Option<string>) -> Outcome,
    jarAt: Option<string> -> Jar)

  /** The effect of one iteration of `main`'s loop: the (possibly updated) mod,
      whether it was committed, and whether it counts towards "anything to
      update". */
  datatype ModStep = ModStep(mod: ModEntry, committed: bool, counted: bool)

  /** The decision `main` asks for: no adapter is injected, so forks go through the
      default GitHub adapter. */
  function MainDecision(mod: ModEntry, opts: MainOptions, env: Env): Result<UpdateInfo, string> {
    GetModUpdateInfo(mod, Options(opts.dryRun, opts.updateConfigOnly, opts.mcVersion), DefaultAdapter(env.upstream.github), env.upstream)
  }

  /** One iteration of `main`'s loop. A real run downloads when the action is
      `download` and commits exactly when the download step reports success; a
      dry run commits nothing and counts both `download` and `simulate`. */
  function ProcessMod(mod: ModEntry, opts: MainOptions, env: Env): (r: Result<ModStep, string>)
    ensures MainDecision(mod, opts, env).Err? ==> r == Err(MainDecision(mod, opts, env).error)
    ensures r.Ok? ==> MainDecision(mod, opts, env).Ok?
    ensures r.Ok? ==>
      var info := MainDecision(mod, opts, env).value;
      r.value.committed <==>
        && !opts.dryRun && info.action == Download && info.fileName.Some?
        && (!opts.picky || PickyPasses(env.archiveDir.listing, info.fileName))
        && env.download(info.fileUrl, info.fileName).Pass?
        && VersionCheck.ExtractFabricMinecraftVersion(env.jarAt(info.fileName)) == VersionCheck.Version(opts.mcVersion)
    ensures r.Ok? && r.value.committed ==> r.value.mod == UpdateModConfig(mod, MainDecision(mod, opts, env).value)
    ensures r.Ok? && !r.value.committed ==> r.value.mod == mod
    ensures r.Ok? && opts.dryRun ==> !r.value.committed
    ensures r.Ok? && r.value.counted ==> r.value.committed || opts.dryRun
    ensures r.Ok? && opts.dryRun ==> (r.value.counted <==> MainDecision(mod, opts, env).value.action != Skip)
    ensures r.Ok? && !opts.dryRun ==> (r.value.counted <==> r.value.committed)
  {
    var info :- MainDecision(mod, opts, env);
    if !opts.dryRun && info.action == Download then
      var d := HandleDownloadAndVersionCheck(opts.picky, env.archiveDir.listing, info.fileName,
                                             env.download(info.fileUrl, info.fileName), env.jarAt(info.fileName), opts.mcVersion);
      if d.ok then Ok(ModStep(UpdateModConfig(mod, info), true, true))
      else Ok(ModStep(mod, false, false))
    else
      Ok(ModStep(mod, false, opts.dryRun && (info.action == Download || info.action == Simulate)))
  }

  /** The outcome of `main`: the files moved before the loop (every `.jar`, unless
      picky, and also on a dry run) and then either the rejection that aborted
      the run, leaving the config file unwritten, or the mods after the loop with
      whether the config is written and whether anything was found to update. */
  datatype RunOutcome = RunOutcome(archivedAtStart: seq<string>, result: Result<Run, string>)

  datatype Run = Run(mods: seq<ModEntry>, configWritten: bool, anyUpdate: bool)

  /** What each iteration of the loop gives, mod by mod. */
  function Steps(mods: seq<ModEntry>, opts: MainOptions, env: Env): (r: seq<Result<ModStep, string>>)
    ensures |r| == |mods|
    ensures forall j :: 0 <= j < |mods| ==> r[j] == ProcessMod(mods[j], opts, env)
  {
    seq(|mods|, j requires 0 <= j < |mods| => ProcessMod(mods[j], opts, env))
  }

  /** The iterations do not influence each other: picky mode reads a directory the
      downloads never reach, and its archive step moves nothing, so the step of a
      mod is the same whatever mods come before it. The lemma records that choice
      of the model, which gives every step the same `env.archiveDir`; given that
      choice it follows from `Steps` mapping each mod on its own. */
  lemma StepIgnoresEarlierMods(front: seq<ModEntry>, mods: seq<ModEntry>, opts: MainOptions, env: Env, j: nat)
    requires j < |mods|
    ensures Steps(front + mods, opts, env)[|front| + j] == Steps(mods, opts, env)[j]
  {
    assert (front + mods)[|front| + j] == mods[j];
  }

  /** The loop of `main` over the steps of the mods, in order: the first rejection
      aborts the run; otherwise every mod is replaced by its step's result, the
      config is written iff some mod was committed, and "nothing found to
      update" is reported iff no step counted. */
  method CollectSteps(steps: seq<Result<ModStep, string>>) returns (r: Result<Run, string>)
    ensures r.Err? ==> exists k :: && 0 <= k < |steps| && steps[k] == Err(r.error)
                                   && forall j :: 0 <= j < k ==> steps[j].Ok?
    ensures r.Ok? <==> forall j :: 0 <= j < |steps| ==> steps[j].Ok?
    ensures r.Ok? ==>
      && |r.value.mods| == |steps|
      && (forall j :: 0 <= j < |steps| ==> steps[j].Ok? && r.value.mods[j] == steps[j].value.mod)
      && (r.value.configWritten <==> exists j :: 0 <= j < |steps| && steps[j].Ok? && steps[j].value.committed)
      && (r.value.anyUpdate <==> exists j :: 0 <= j < |steps| && steps[j].Ok? && steps[j].value.counted)
  {
    var updated: seq<ModEntry> := [];
    var configChanged := false;
    var anyUpdate := false;
    var i := 0;
    while i < |steps|
      invariant 0 <= i <= |steps|
      invariant |updated| == i
      invariant forall j :: 0 <= j < i ==> steps[j].Ok? && updated[j] == steps[j].value.mod
      invariant configChanged <==> exists j :: 0 <= j < i && steps[j].Ok? && steps[j].value.committed
      invariant anyUpdate <==> exists j :: 0 <= j < i && steps[j].Ok? && steps[j].value.counted
    {
      var step := steps[i];
      if step.Err? {
        return Err(step.error);
      }
      updated := updated + [step.value.mod];
      configChanged := configChanged || step.value.committed;
      anyUpdate := anyUpdate || step.value.counted;
      i := i + 1;
    }
    r := Ok(Run(updated, configChanged, anyUpdate));
  }

  /** `main({ dryRun, updateConfigOnly, picky, mcVersion })` over the mods of the
      config: unless picky, every `.jar` is moved to `.old` first (on a dry run
      too), and a throw there rejects `main` before any mod is looked at; then
      the mods are processed one after another. */
  method RunUpdates(mods: seq<ModEntry>, opts: MainOptions, env: Env) returns (r: RunOutcome)
    ensures opts.picky ==> r.archivedAtStart == []
    ensures !opts.picky && ArchiveCheck.ArchiveExistingModsIn(env.archiveDir).Err? ==>
      r == RunOutcome([], Err(ArchiveCheck.ArchiveExistingModsIn(env.archiveDir).error))
    ensures !opts.picky && ArchiveCheck.ArchiveExistingModsIn(env.archiveDir).Ok? ==>
      r.archivedAtStart == ArchiveCheck.ArchiveExistingModsIn(env.archiveDir).value
    ensures opts.picky || ArchiveCheck.ArchiveExistingModsIn(env.archiveDir).Ok? ==>
      && (r.result.Err? ==> exists k :: && 0 <= k < |mods| && Steps(mods, opts, env)[k] == Err(r.result.error)
                                        && forall j :: 0 <= j < k ==> Steps(mods, opts, env)[j].Ok?)
      && (r.result.Ok? <==> forall j :: 0 <= j < |mods| ==> Steps(mods, opts, env)[j].Ok?)
      && (r.result.Ok? ==>
        && |r.result.value.mods| == |mods|
        && (forall j :: 0 <= j < |mods| ==> Steps(mods, opts, env)[j].Ok? && r.result.value.mods[j] == Steps(mods, opts, env)[j].value.mod)
        && (r.result.value.configWritten <==> exists j :: 0 <= j < |mods| && Steps(mods, opts, env)[j].Ok? && Steps(mods, opts, env)[j].value.committed)
        && (r.result.value.anyUpdate <==> exists j :: 0 <= j < |mods| && Steps(mods, opts, env)[j].Ok? && Steps(mods, opts, env)[j].value.counted))
  {
    var archived: seq<string> := [];
    if !opts.picky {
      var start := ArchiveCheck.ArchiveExistingModsIn(env.archiveDir);
      if start.Err? {
        return RunOutcome([], Err(start.error));
      }
      archived := start.value;
    }
    var result := CollectSteps(Steps(mods, opts, env));
    r := RunOutcome(archived, result);
  }

  /** A dry run that completes writes no config and changes no mod, although
      (unless picky) it has already moved every `.jar` to `.old`. */
  lemma DryRunCommitsNothing(mods: seq<ModEntry>, opts: MainOptions, env: Env, j: nat)
    requires opts.dryRun && j < |mods|
    requires Steps(mods, opts, env)[j].Ok?
    ensures !Steps(mods, opts, env)[j].value.committed
    ensures Steps(mods, opts, env)[j].value.mod == mods[j]
  {
  }

  // --------------------------------------------------------------- addFork

  /** `config.mods.find(m => m.id === modId)`, as an index, or -1. */
  function ModIndex(mods: seq<ModEntry>, modId: string): (r: int)
    ensures -1 <= r < |mods|
    ensures r >= 0 ==> mods[r].id == Some(modId) && forall j :: 0 <= j < r ==> mods[j].id != Some(modId)
    ensures r == -1 <==> forall j :: 0 <= j < |mods| ==> mods[j].id != Some(modId)
  {
    if |mods| == 0 then -1
    else if mods[0].id == Some(modId) then 0
    else
      var k := ModIndex(mods[1..], modId);
      if k < 0 then -1 else k + 1
  }

  /** What `addFork` writes back: the config with the fork appended, or nothing
      because the fork is already listed. */
  datatype AddForkOutcome = Added(mods: seq<ModEntry>) | AlreadyPresent

  /** Without a fork URL the code calls `prompt`, which Node.js does not define. */
  const PromptError: string := "ReferenceError: prompt is not defined"

  /** Without a mod id the code calls `inferModIdFromForkUrl`, which is defined nowhere. */
  const InferError: string := "ReferenceError: inferModIdFromForkUrl is not defined"

  function NotFoundError(modId: string): string {
    "Mod with id '" + modId + "' not found."
  }

  /** `addFork([forkUrl, modId])` over the mods of the config. The fork is appended
      to the first mod with that id only when it is not already listed; a `forks`
      that is not an array is replaced by an empty one first. */
  function AddFork(mods: seq<ModEntry>, forkUrl: Option<string>, modId: Option<string>): (r: Result<AddForkOutcome, string>)
    ensures !Truthy(forkUrl) ==> r == Err(PromptError)
    ensures Truthy(forkUrl) && !Truthy(modId) ==> r == Err(InferError)
    ensures Truthy(forkUrl) && Truthy(modId) ==>
      (r == Err(NotFoundError(modId.value)) <==> ModIndex(mods, modId.value) < 0)
    ensures r == Ok(AlreadyPresent) <==>
      Truthy(forkUrl) && Truthy(modId) && ModIndex(mods, modId.value) >= 0
      && forkUrl.value in ForksOf(mods[ModIndex(mods, modId.value)])
    ensures r.Ok? && r.value.Added? ==>
      var k := ModIndex(mods, modId.value);
      && 0 <= k && forkUrl.value !in ForksOf(mods[k])
      && |r.value.mods| == |mods|
      && r.value.mods[k] == mods[k].(forks := Some(ForksOf(mods[k]) + [forkUrl.value]))
      && (forall j :: 0 <= j < |mods| && j != k ==> r.value.mods[j] == mods[j])
    ensures (Truthy(forkUrl) && Truthy(modId) && ModIndex(mods, modId.value) >= 0
             && forkUrl.value !in ForksOf(mods[ModIndex(mods, modId.value)])) ==> r.Ok? && r.value.Added?
  {
    if !Truthy(forkUrl) then Err(PromptError)
    else if !Truthy(modId) then Err(InferError)
    else
      var k := ModIndex(mods, modId.value);
      if k < 0 then Err(NotFoundError(modId.value))
      else
        var forks := ForksOf(mods[k]);
        if forkUrl.value in forks then Ok(AlreadyPresent)
        else Ok(Added(mods[k := mods[k].(forks := Some(forks + [forkUrl.value]))]))
  }

  /** Adding a fork never creates a duplicate in the mod's fork list. */
  lemma AddForkNoDuplicates(mods: seq<ModEntry>, forkUrl: Option<string>, modId: Option<string>)
    requires AddFork(mods, forkUrl, modId).Ok? && AddFork(mods, forkUrl, modId).value.Added?
    requires NoDuplicates(ForksOf(mods[ModIndex(mods, modId.value)]))
    ensures var k := ModIndex(mods, modId.value);
            NoDuplicates(ForksOf(AddFork(mods, forkUrl, modId).value.mods[k]))
  {
  }

  /** Adding the same fork a second time finds it present and writes nothing. */
  lemma AddForkTwice(mods: seq<ModEntry>, forkUrl: Option<string>, modId: Option<string>)
    requires AddFork(mods, forkUrl, modId).Ok? && AddFork(mods, forkUrl, modId).value.Added?
    ensures AddFork(AddFork(mods, forkUrl, modId).value.mods, forkUrl, modId) == Ok(AlreadyPresent)
  {
    var ms := AddFork(mods, forkUrl, modId).value.mods;
    var k := ModIndex(mods, modId.value);
    assert ms[k].id == Some(modId.value);
    assert ModIndex(ms, modId.value) == k;
    assert forkUrl.value in ForksOf(ms[k]);
  }
}
