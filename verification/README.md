# mod-update-script, modelled in Dafny

This project models the tooling that keeps a Minecraft Fabric mod folder up to
date. It covers six parts:

- **The update decision engine** (`update_mods.js`). Per mod, it tries the
  configured GitHub forks in order, then the primary source: Modrinth, GitHub
  or GitLab, under their long or short names. It gates archived releases and
  picks one action: `skip`, `simulate` or `download`. Around it sit the commit
  rule of `main`, the version check after a download, `updateModConfig`, and
  the fork de-duplication of `addFork`.
- **The release adapters** (`mod_api_utils.js`):
  - Modrinth takes the first version and its first `.jar` file.
  - GitHub takes the first `.jar` asset of the latest release, after
    rewriting the repository URL into the API URL.
  - GitLab reads the first release, then falls back to scanning the tags.
- **The embedded-version check** (`versionCheck.js`). It parses the
  `Fabric-Minecraft-Version:` manifest line down to its
  `1.<d{1,2}>.<d{1,2}>` base. It computes the `.old` path that a
  mismatched jar would be moved to.
- **The archive store** (`archive_check.js`). This covers:
  - what `isArchived` reports;
  - what `listArchivedFiles` lists;
  - what the two archiving helpers move;
  - the longest-common-substring similarity, stated in integers.
- **The version report** (`list_latest_versions.js`). This covers:
  - the per-mod status record and its error texts;
  - argument white-listing;
  - the source filter;
  - checking in batches of five;
  - the two summaries;
  - the CSV rows, quoted as in section 2 of RFC 4180.
- **The sorter** (`sort_into_groups.js`). It files archived jars into one
  folder per Minecraft version. The version comes from the manifest, then
  `fabric.mod.json`'s `depends.minecraft`, then five file-name patterns. The
  sorter keeps moved, skipped and failed counts.

Modules follow the source files:

| module | file | source |
|---|---|---|
| `UpdateMods` | `update_mods.dfy` | `update_mods.js` |
| `ModApi` | `mod_api.dfy` | `mod_api_utils.js` |
| `VersionCheck` | `version_check.dfy` | `versionCheck.js` |
| `ArchiveCheck` | `archive_check.dfy` | `archive_check.js` |
| `ListLatest` | `list_latest.dfy` | `list_latest_versions.js` |
| `SortGroups` | `sort_groups.dfy` | `sort_into_groups.js` |

Shared definitions live in their own modules:

- `Values`: `null`/`undefined`, thrown errors, truthiness, `findIndex` and
  `filter`.
- `JsString`: the string methods with JavaScript's meaning.
- `JarFile`: a jar as its manifest text and `fabric.mod.json`.
- `ModConfig`: an entry of `mods_config.json`.
- `Csv`: the RFC 4180 writer and reader.

Everything the scripts fetch, read from disk or get from the zip reader
enters as a parameter:

- network responses are functions from the request key to a response datatype;
- directory listings are sequences of names;
- a jar is its manifest text and its `fabric.mod.json` value.

JavaScript's `null`, `undefined` and thrown errors are modelled explicitly
where the code distinguishes them. `Result.Err` stands for a rejection that
escapes the call.

Where the code and its surrounding description disagree, the model follows the
code:

- `validateOrArchiveModVersion` uses the **last** `mods` segment.
- `isArchived` matches the version as a substring, so prefixes of an archived
  version count as archived.
- `handleDownloadAndVersionCheck` leaves a mismatched jar in place.
- The two scripts use different `mods/` directories. `archive_check.js` works
  on `mods/` beside the script's folder. `update_mods.js` downloads into
  `mods/` one level higher. So the `.jar` files a run downloads are never
  seen or moved by the archive helpers of the same run.
- The archive helpers throw when their `mods/` directory is missing. Moving a
  `.jar` also throws when `mods/.old` is missing. `update_mods.js` creates
  only its own directories, not these.
- A throw from the archive step at the start of a run that is not picky
  rejects `main` before any mod is looked at.
- Picky mode calls `archiveExistingModFiles` as written. It throws while the
  archive helpers' `mods/` holds another `.jar` or is missing, so that mod is
  not downloaded.
- The GitLab host pattern's `.` matches any character.
- A GitLab primary source is never downloaded.
- The default GitHub adapter never lets a fork qualify.
- A rejected Modrinth versions request aborts `main`.
- GitHub rows of the report are always errors.
- The report's filter ignores case while `fetchModVersionInfo` does not.
- The sorter does not normalise the manifest value the way `versionCheck.js`
  does.

## Model

| member | source | states |
|---|---|---|
| `UpdateMods.GetForkReleaseInfo` | mod-update-script/update_mods.js:427-453 | A URL failing the GitHub fork pattern, and every fork under the default adapter, give `null`. Otherwise the raw release qualifies iff it has assets and one named `.jar`. The result is the first such asset's url and name, the tag, and `beta` iff pre-release. An asset without a name before the first jar throws. |
| `UpdateMods.ForkScan` | mod-update-script/update_mods.js:354-371 | The fork step is empty iff every fork declines. Otherwise it returns the first fork in list order that does not decline, with its position and release. |
| `UpdateMods.FirstForkFinds` | mod-update-script/update_mods.js:355-357 | When forks `i..k-1` decline and fork `k` does not, the scan stops at `k`: its release, or its thrown error. |
| `UpdateMods.DefaultForkNeverQualifies` | mod-update-script/update_mods.js:429-449 | With the default GitHub adapter no fork ever qualifies, because its normalised record carries no `assets`. |
| `UpdateMods.ForkDecision` | mod-update-script/update_mods.js:358-369 | A qualifying fork gives source `FORK` and `fork_url` set to that fork, with the fork's version, stability, url and file name. The action is `simulate` iff dry run or update-config-only, else `download`. |
| `UpdateMods.ForkPriority` | mod-update-script/update_mods.js:354-371 | When fork `k` is the first that does not decline and it qualifies, the decision is that fork's. No later fork and no primary source is consulted: any other upstream gives the same result. |
| `UpdateMods.ForkTestScenario` | mod-update-script/test_fork_logic.test.js:39-59 | With forks [no release, jar release, jar release], a dry run picks the second fork: source `FORK`, its URL, its tag and its jar. |
| `UpdateMods.ModrinthRecord` | mod-update-script/update_mods.js:377-378 | The Modrinth record is found exactly when the adapter found a jar, and is never archived. |
| `UpdateMods.GithubRecord` | mod-update-script/update_mods.js:380-381 | A GitHub record is always found and never archived. |
| `UpdateMods.GitlabRecord` | mod-update-script/update_mods.js:383-384 | The GitLab record has no `found` flag, so it is never found. |
| `UpdateMods.PrimaryRelease` | mod-update-script/update_mods.js:375-386 | The dispatch on `mod.source`. An unknown source gives no record. Modrinth is asked with the id and the target version, and its rejection escapes. GitHub and GitLab are asked with `mod.owner` alone, and a GitLab record is never found. |
| `UpdateMods.Decide` | mod-update-script/update_mods.js:388-414 | The primary-path action is `simulate` iff dry run and found, and `download` iff found, not dry run and not archived. The source is echoed. Version prefers `latest_version` and url prefers `file_url`. Without a record, every field is `null`. |
| `UpdateMods.GetModUpdateInfo` | mod-update-script/update_mods.js:346-415 | Forks first: a thrown fork error rejects, and a qualifying fork decides. Otherwise the primary record, or its rejection, feeds the archived gate and the action choice. |
| `UpdateMods.PrimaryAction` | mod-update-script/update_mods.js:389-402 | With no qualifying fork, the action is fixed by dry run, found and archived alone. An archived release is never downloaded. Update-config-only does not produce `simulate`. |
| `UpdateMods.UnsupportedSourceSkips` | mod-update-script/update_mods.js:375-414 | A source outside the six recognised names, with no qualifying fork, is skipped with `null` version, stability, url and file name. |
| `UpdateMods.GitlabNeverDownloads` | mod-update-script/update_mods.js:383-402 | A GitLab primary source is always skipped. |
| `UpdateMods.MainIgnoresForks` | mod-update-script/update_mods.js:104 | In `main` no adapter is injected, so the decision equals the one for the same mod without forks. |
| `UpdateMods.UpdateModConfig` | mod-update-script/update_mods.js:163-170 | `latest_version` and `latest_stability` are overwritten only by truthy values; every other field is unchanged. |
| `UpdateMods.UpdateModConfigIdempotent` | mod-update-script/update_mods.js:163-170 | Applying the same update twice is the same as applying it once. |
| `UpdateMods.HandleDownloadAndVersionCheck` | mod-update-script/update_mods.js:133-156 | The download is reached iff there is a file name and, in picky mode, the archive helpers' `mods/` exists and holds no other `.jar`. Otherwise the archive helper as written throws, and the catch returns false with nothing moved or downloaded. The check passes iff the download was reached and succeeded and the extracted version is the target. |
| `UpdateMods.PickyOtherJarFails` | mod-update-script/update_mods.js:135-154 | In picky mode, any `.jar` in the archive helpers' `mods/` other than the new file makes the call return false without downloading. |
| `UpdateMods.PickyWithOlderJarFails` | mod-update-script/update_mods.js:133-156 | With `testmod-1.0.jar` in the archive helpers' `mods/`, picky mode neither downloads nor passes for `testmod-1.1.jar`. |
| `UpdateMods.PickyAsWrittenVersusRepaired` | mod-update-script/update_mods.js:135 | Picky mode goes ahead exactly when the repaired archive helper would have had nothing to move, and then it agrees with a run that is not picky. |
| `UpdateMods.ProcessMod` | mod-update-script/update_mods.js:103-116 | A mod is committed iff it is not a dry run, the action is `download` with a file name, picky mode's archive step goes through, the download succeeded and the extracted version matches. A committed mod is the updated mod; an uncommitted one is unchanged. A dry run commits nothing and counts `download` and `simulate`. A rejected decision rejects the step with its error. |
| `UpdateMods.CollectSteps` | mod-update-script/update_mods.js:103-127 | The loop stops at the first rejection. Otherwise every mod is replaced by its step's result. The config is written iff some mod was committed, and "nothing to update" is reported iff no step counted. |
| `UpdateMods.RunUpdates` | mod-update-script/update_mods.js:96-127 | Unless picky, every `.jar` of the archive helpers' `mods/` is archived first, on a dry run too. A throw there rejects the run before the loop, with nothing archived. Otherwise the mods are processed in order, with the outcome `CollectSteps` describes. Every step sees the same archive directory. |
| `UpdateMods.StepIgnoresEarlierMods` | mod-update-script/update_mods.js:101-116 | A mod's step is the same whatever mods come before it. The downloads go to another directory, and picky mode's archive step moves nothing. The lemma records the model's choice of one archive directory for every step. |
| `UpdateMods.DryRunCommitsNothing` | mod-update-script/update_mods.js:106-115 | A dry run that completes commits no mod and leaves every mod unchanged. |
| `UpdateMods.ModIndex` | mod-update-script/update_mods.js:258 | The index of the first mod with the given id, or -1 iff there is none. |
| `UpdateMods.AddFork` | mod-update-script/update_mods.js:244-273 | A missing fork URL or mod id throws. An unknown id is an error. A fork already present writes nothing. Otherwise the URL is appended to that mod's forks (missing forks become `[]`), and nothing else changes. |
| `UpdateMods.AddForkNoDuplicates` | mod-update-script/update_mods.js:263-265 | Appending a fork keeps a duplicate-free fork list duplicate-free. |
| `UpdateMods.AddForkTwice` | mod-update-script/update_mods.js:264-269 | Adding the same fork a second time finds it present and writes nothing. |
| `ModApi.ReadProject` | mod-update-script/mod_api_utils.js:16-24 | A failing metadata request leaves slug, name and source URL as `''`. Otherwise each field falls back to `''`, and the source URL prefers `source_url` over `repository`. |
| `ModApi.GetModrinthVersionInfo` | mod-update-script/mod_api_utils.js:13-42 | A rejected versions request rejects the call. A non-array or empty list, or a first version without a `.jar` file, gives `found:false` with only the project fields. Otherwise the result is the first version's first `.jar` file, with its version number and type. |
| `ModApi.ModrinthProjectFailureHarmless` | mod-update-script/mod_api_utils.js:19-24 | Whatever the metadata request does, the call fails with the same error or succeeds with the same record, except for slug, project name and source URL. |
| `ModApi.GithubApiUrlOf` | mod-update-script/mod_api_utils.js:54 | The first `github.com` becomes `api.github.com/repos`, and `/releases/latest` is appended. |
| `ModApi.GithubApiUrlExample` | mod-update-script/mod_api_utils.js:54 | `https://github.com/<path>` maps to `https://api.github.com/repos/<path>/releases/latest`. |
| `ModApi.GetGithubReleaseInfo` | mod-update-script/mod_api_utils.js:49-74 | A falsy repo or a rejected request gives `null`. A result exists iff the release has assets and the scan reaches a `.jar` before any nameless asset. Then the record holds that asset and `beta` iff pre-release. |
| `ModApi.GitlabMatchFrom` | mod-update-script/mod_api_utils.js:86 | The leftmost position where the GitLab pattern matches, or -1 iff it matches nowhere. |
| `ModApi.StripGitIsShortest` | mod-update-script/mod_api_utils.js:86 | The lazy capture is the shortest non-empty prefix after which only `.git` or nothing remains. |
| `ModApi.GitlabProjectPath` | mod-update-script/mod_api_utils.js:86-88 | No project path iff the pattern matches nowhere. Otherwise the path is the capture at a matching position. |
| `ModApi.GitlabProjectPathExample` | mod-update-script/mod_api_utils.js:86 | `https://gitlab.com/<path>` gives `<path>` without a trailing `.git`. |
| `ModApi.ChosenLinks` | mod-update-script/mod_api_utils.js:114-119 | A tag's `release.assets.links` is preferred to its `assets.links`. |
| `ModApi.TagInfo` | mod-update-script/mod_api_utils.js:125-130 | A qualifying tag gives a non-pre-release record with its non-empty name and exactly one asset, one that the link test accepts. |
| `ModApi.FromReleases` | mod-update-script/mod_api_utils.js:92-108 | Only `releases[0]` is examined. A jar link by name or url settles the call. A request that is not ok, a non-array or empty body, or no jar falls through to the tags. A thrown error settles it with `null`. |
| `ModApi.FromTags` | mod-update-script/mod_api_utils.js:110-135 | Tags are scanned in order, and the first that qualifies or throws decides. A qualifying tag gives its record. A throw, or no qualifying tag, gives `null`. |
| `ModApi.GetGitlabReleaseInfo` | mod-update-script/mod_api_utils.js:83-141 | A missing or non-matching URL gives `null`. Otherwise the releases step decides, and only when it falls through do the tags. Every record has `prerelease:false` and exactly one asset, a jar by name or by url. |
| `ModApi.GitlabReleaseWins` | mod-update-script/getGitlabReleaseInfo.test.js:20-43 | A first release whose first stopping link is a jar decides the call, with that link's name and url; the tags play no part. |
| `ModApi.GitlabTagFallback` | mod-update-script/mod_api_utils.js:110-133 | With an empty release list, a tag with an accepted link and a non-empty name gives a record built from its first accepted link. |
| `VersionCheck.MatchBaseVersion` | mod-update-script/versionCheck.js:68-75 | A match is a base version `1.<1-2 digits>.<1-2 digits>` that is a prefix of the token. |
| `VersionCheck.MatchBaseVersionLongest` | mod-update-script/versionCheck.js:68-69 | Any base-version prefix of the token means there is a match at least that long, so the greedy digit groups are kept. |
| `VersionCheck.BaseExample` | mod-update-script/versionCheck.js:67-69 | `1.a.b` not followed by a digit is matched exactly, dropping suffixes such as `-rc1`. |
| `VersionCheck.ParseVersionLine` | mod-update-script/versionCheck.js:53-86 | A parse result exists only for a key line, and it is a base version. |
| `VersionCheck.ParseVersionLineToken` | mod-update-script/versionCheck.js:56-79 | After the key and white space, the parse of a line is the base-version match of its first non-white-space token. That match is a prefix of the token. |
| `VersionCheck.ParseVersionLineNoToken` | mod-update-script/versionCheck.js:58-62 | A key followed only by white space parses to `null`; the thrown error is caught. |
| `VersionCheck.FirstKeyLine` | mod-update-script/versionCheck.js:23-27 | `undefined` iff no line starts with the key. Otherwise the result is the parse of the first key line, even when that parse is `null`. |
| `VersionCheck.ExtractFabricMinecraftVersion` | mod-update-script/versionCheck.js:21-45 | An unreadable archive or a missing manifest gives `null`. Otherwise the result is the first-key-line result over the manifest's lines, and any version found is a base version. |
| `VersionCheck.ArchivePath` | mod-update-script/versionCheck.js:103-112 | There is no archive path iff no path segment is `mods`. |
| `VersionCheck.ArchivePathOfSegments` | mod-update-script/versionCheck.js:103-112 | The archive path is the segments up to the last `mods`, then `/.old/`, then the file name. |
| `VersionCheck.ValidateOrArchiveModVersion` | mod-update-script/versionCheck.js:94-115 | A matching version is valid with the found version, and no path is inspected. A mismatch is invalid with the archive path, or throws when no segment is `mods`. |
| `VersionCheck.LastIndexOfBefore` | mod-update-script/versionCheck.js:104 | `lastIndexOf` finds the occurrence after which the element no longer appears. |
| `ArchiveCheck.IsArchived` | mod-update-script/archive_check.js:81-86 | False without `.old`. Otherwise true iff some entry starts with `modId-`, contains the version and ends in `.jar`. |
| `ArchiveCheck.IsArchivedSubstring` | mod-update-script/archive_check.js:85 | Once a version is archived, every substring of it counts as archived too. |
| `ArchiveCheck.IsArchivedPrefix` | mod-update-script/archive_check.js:85 | A prefix of an archived version is reported as archived. |
| `ArchiveCheck.IsArchivedExample` | mod-update-script/archive_check.integration.test.js:13-18 | With `testmod-1.2.3.jar` archived, `testmod` at `1.2.3` is archived. |
| `ArchiveCheck.IsArchivedOtherMod` | mod-update-script/archive_check.integration.test.js:20-26 | Another mod id is not archived. |
| `ArchiveCheck.IsArchivedOtherVersion` | mod-update-script/archive_check.integration.test.js:20-26 | A version that occurs in no name is not archived. |
| `ArchiveCheck.ListArchivedFiles` | mod-update-script/archive_check.js:69-73 | `[]` without `.old`. Otherwise exactly the `.jar` entries, each as many times as it is listed. |
| `ArchiveCheck.ListArchivedFilesOrder` | mod-update-script/archive_check.js:72 | The listing order is kept: listing two runs of entries gives the two listings one after the other. |
| `ArchiveCheck.ArchiveExistingMods` | mod-update-script/archive_check.js:9-17 | Every `.jar` entry is moved, as many times as it is listed, and nothing else is moved. |
| `ArchiveCheck.ArchiveExistingModsIn` | mod-update-script/archive_check.js:9-17 | A missing `mods/` throws. With `mods/` present, the call throws iff some `.jar` is listed and `mods/.old` is missing. Otherwise it moves what `ArchiveExistingMods` moves. |
| `ArchiveCheck.ArchiveExistingModsPartition` | mod-update-script/archive_check.js:12-16 | What moves and what stays partition the directory as a multiset. |
| `ArchiveCheck.ArchiveExistingModFilesAsWritten` | mod-update-script/archive_check.js:51-62 | The loop as written throws exactly when some `.jar` other than the new file exists, and otherwise moves nothing. |
| `ArchiveCheck.ArchiveExistingModFilesAsWrittenThrows` | mod-update-script/archive_check.js:53 | With the new jar and one older jar present, the written code throws where the corrected one moves the older jar. |
| `ArchiveCheck.ArchiveExistingModFiles` | mod-update-script/archive_check.js:19-63 | The new file and non-`.jar` entries are never moved. Every other `.jar` is moved without the similarity check, and with it only those similar enough. |
| `ArchiveCheck.ArchiveExistingModFilesKeepsNew` | mod-update-script/archive_check.js:51-60 | Without the similarity check, the move list is what `archiveExistingMods` moves minus the new file. |
| `ArchiveCheck.LcsIsLongestCommonSubstring` | mod-update-script/archive_check.js:33-46 | `lcs` is the length of a longest common substring: one of that length exists and none is longer. |
| `ArchiveCheck.LcsBounded` | mod-update-script/archive_check.js:33-46 | `lcs` is at most the length of either string. |
| `ArchiveCheck.LcsSelf` | mod-update-script/archive_check.js:33-46 | `lcs(x, x)` is the length of `x`. |
| `ArchiveCheck.LongestCommonSubstring` | mod-update-script/archive_check.js:33-46 | The nested loops return the longest-common-substring length. |
| `ArchiveCheck.SimilarIff` | mod-update-script/archive_check.js:29-55 | Similarity at least 0.6 is equivalent to `10 * lcs >= 3 * (|a| + |b|)` for non-empty input. |
| `ArchiveCheck.SimilarSelf` | mod-update-script/archive_check.js:47-48 | A non-empty name is similar to itself. |
| `ListLatest.ValueOfFlag` | mod-update-script/list_latest_versions.js:47 | `flag.split('=')[1]` of `name=v` is `v` when neither holds `=`. |
| `ListLatest.ParseArgs` | mod-update-script/list_latest_versions.js:40-62 | Help iff `--help` or `-h` is present. The defaults are `1.21.8`, `table` and `ALL`, and the first matching flag decides. The format is lower-cased and falls back to `table` outside the list; the filter is upper-cased and falls back to `ALL`. |
| `ListLatest.FlagsExclusive` | mod-update-script/list_latest_versions.js:46-55 | No argument is two flags at once. |
| `ListLatest.ParseArgsOf` | mod-update-script/list_latest_versions.test.js:6-44 | `--mc-version=v --format=f --filter=g` gives `v`, lower-cased `f` and upper-cased `g` when these are allowed. |
| `ListLatest.FetchModVersionInfo` | mod-update-script/list_latest_versions.js:91-149 | Identity fields are copied, a missing slug becomes empty, and missing current fields become `Unknown`. An error means no update and no latest fields. Without an error, update is available iff the latest version differs from the recorded one. Unknown sources get `Unsupported source: <source>`. A GitLab mod with a `fallback_repo` has no error iff the adapter gives a record with a truthy tag; otherwise the error is `No GitLab release found`. |
| `ListLatest.GithubRowsFail` | mod-update-script/list_latest_versions.js:115-127 | Every GitHub row is an error, whatever the adapter answers: the missing-URL error without `fallback_repo`, else `No GitHub release found`. |
| `ListLatest.GitlabRowWithoutRepo` | mod-update-script/list_latest_versions.js:128-140 | A GitLab row without `fallback_repo` gets `No GitLab repo URL available`, without asking the adapter. |
| `ListLatest.UnsupportedSourceRow` | mod-update-script/list_latest_versions.test.js:75-91 | An unknown source with no recorded version gives `Unknown` current fields and the unsupported-source error. |
| `ListLatest.SourceFilter` | mod-update-script/list_latest_versions.js:277-287 | `ALL` keeps every mod. Any other filter keeps a mod iff its upper-cased source is the filter or the filter's long alias. |
| `ListLatest.SourceFilterAppend` | mod-update-script/list_latest_versions.js:280-286 | The filter keeps the listing order. |
| `ListLatest.LowerCaseSourcePassesFilter` | mod-update-script/list_latest_versions.js:281 | A lower-case `mr` source passes the `MR` filter but is an unsupported source for the fetch. |
| `ListLatest.FlattenBatches` | mod-update-script/list_latest_versions.js:304-308 | Concatenating the batches gives back the list in order. |
| `ListLatest.BatchCount` | mod-update-script/list_latest_versions.js:302-305 | There are `ceil(n / 5)` batches, and all but the last are full. |
| `ListLatest.MapInBatches` | mod-update-script/list_latest_versions.js:300-315 | The results are in input order, one per input. The progress after batch `b` is `min(5b + 5, n)`, ending at `n`. |
| `ListLatest.CheckInBatches` | mod-update-script/list_latest_versions.js:300-315 | Each mod to check gets its own status, in order. |
| `ListLatest.SummariesAgree` | mod-update-script/list_latest_versions.js:190-212 | The table's and the JSON's summaries agree, and total = up to date + updates + errors. |
| `ListLatest.RowFields` | mod-update-script/list_latest_versions.js:229-240 | A row has as many fields as the header. The update flag is a bare `true`/`false`, and every other field is escaped. |
| `ListLatest.HeaderSplits` | mod-update-script/list_latest_versions.js:226 | The header splits at its commas into the ten column names. |
| `ListLatest.CsvRowReadsBack` | mod-update-script/list_latest_versions.js:228-241 | A row reads back as ten fields, one per column. The texts are the status's values, un-doubled, and the update flag reads `true` or `false`. |
| `ListLatest.ListLatestVersions` | mod-update-script/list_latest_versions.js:248-334 | Help, a missing `mods` array and an empty selection end the run. Otherwise every selected mod is checked in order under the chosen format. |
| `Csv.UnquoteQuote` | mod-update-script/list_latest_versions.js:230 | Un-doubling an escaped field recovers its text. |
| `Csv.ReadQuotedDoubled` | mod-update-script/list_latest_versions.js:230-239 | Reading a doubled text back stops at the closing quote and undoes the doubling. |
| `Csv.ParseEncodeRecord` | mod-update-script/list_latest_versions.js:241 | A joined record reads back as the same number of fields with the same texts. |
| `SortGroups.GetMinecraftVersionFromJar` | mod-update-script/sort_into_groups.js:25-63 | An unreadable jar gives `null`. A key line gives the text between its first and second `:`, trimmed and never holding `:`. Without one, the first `\d+.\d+(.\d+)?` of a truthy `depends.minecraft` is used, else `null`. |
| `SortGroups.ManifestValueOf` | mod-update-script/sort_into_groups.js:35-37 | The manifest value of a key line is the text after the key, trimmed. |
| `SortGroups.ExtractorsDisagree` | mod-update-script/sort_into_groups.js:36 | On a line such as `1.21.8-rc1`, `versionCheck.js` reads `1.21.8` while the sorter reads the whole token. |
| `SortGroups.RangeGivesVersion` | mod-update-script/sort_into_groups.js:48-54 | A range such as `>=1.21.0` gives the version it holds. |
| `SortGroups.WildcardGivesMinor` | mod-update-script/sort_into_groups.js:48-54 | A wildcard such as `1.21.x` gives `1.21`. |
| `SortGroups.DottedIsVersion` | mod-update-script/sort_into_groups.js:51 | What the version pattern matches is digits with one or two inner dots. |
| `SortGroups.DottedMaximal` | mod-update-script/sort_into_groups.js:51 | The version pattern is greedy: its match is never followed by a digit. |
| `SortGroups.MatchPattern` | mod-update-script/sort_into_groups.js:81 | A match exists iff the pattern matches at some position. Its capture is a dotted version. |
| `SortGroups.MatchPatternAt` | mod-update-script/sort_into_groups.js:81-83 | The capture comes from the leftmost matching position. |
| `SortGroups.GuessVersionFromFilename` | mod-update-script/sort_into_groups.js:70-88 | `null` iff no pattern matches. Otherwise the result is capture 1 of the first matching pattern in the fixed order, a dotted version. |
| `SortGroups.ForMcNeverDecides` | mod-update-script/sort_into_groups.js:73-77 | Wherever `for[_-]mc` matches, `mc` matches first, so the fifth pattern never decides. |
| `SortGroups.GuessExamples` | mod-update-script/sort_into_groups.js:72-78 | Each commented example shape (`mc`, `+`, `-v-`, `fabric_`, `for-mc`) yields its version. |
| `SortGroups.ChosenVersion` | mod-update-script/sort_into_groups.js:131-137 | The version from the contents is used when truthy; otherwise the file-name guess is used. |
| `SortGroups.SortOne` | mod-update-script/sort_into_groups.js:128-163 | No version gives "undetermined". A result is skipped iff its target is occupied, so a jar is never moved onto an existing file. Otherwise the result is the move's outcome. |
| `SortGroups.CountsPartition` | mod-update-script/sort_into_groups.js:122-162 | Every result lands in exactly one of moved, skipped and failed. |
| `SortGroups.Tally` | mod-update-script/sort_into_groups.js:122-162 | The counters are the three counts, and they sum to the number of jars. |
| `SortGroups.JarNamesListed` | mod-update-script/sort_into_groups.js:112-113 | Every jar file of the listing is visited, and every visited name ends in `.jar`. |
| `SortGroups.SortModsByVersion` | mod-update-script/sort_into_groups.js:104-169 | A missing folder and a folder without jar files end early. Otherwise the jar files are visited in listing order, each gets its own result, and the stats count them. |

## Left out

- `download_utils.js` (`fetchJson`, `downloadFile`): network I/O. Its
  outcomes are inputs (`Fetch`, `Response`, `Outcome`).
- `mrpack-create/create-modpack.js` and `ecosystem.config.js`: deployment glue
  with no decision logic.
- Zip decoding and `JSON.parse`: a jar is given as its manifest text and the
  parsed `depends.minecraft` value. An archive the reader rejects is
  `Unreadable`, and a `fabric.mod.json` that fails to parse is its own case.
- File-system effects (`renameSync`, `mkdirSync`, `existsSync`,
  `readdirSync`, `statSync`): listings are sequences of names. A move is the
  list of names it would move. The sorter's folder is a record of three
  functions: the jar behind a name, whether a target is occupied, and the
  move's outcome.
- Console output, colours, padding, `printUsage`, `printUpdateResult`,
  `printNoUpdateMsg`, `printDryRunArchive`, the `formatAsTable` layout and
  `process.exit`: presentation only. `ListLatest.ListLatestVersions` returns
  which format was chosen and the rows, not the printed text.
- `parseArgs` and the command dispatch of `update_mods.js`: argument plumbing
  in front of `main` and `addFork`.
- `Promise.all`: each batch is evaluated in order. The results are collected
  in the same order as the code collects them.
- `encodeURIComponent`: the GitLab endpoints are keyed by the project path
  before encoding, so the encoding itself never needs modelling.
- `UpdateMods.AddFork`: `prompt` (undefined in Node.js) and
  `inferModIdFromForkUrl` (defined nowhere) are modelled as the errors they
  throw. It does not model what a prompt would return.
- `config.mods` in `update_mods.js` `main` is taken as the list of mods.
  Writing the config back is the `configWritten` flag.
- `UpdateMods.GetModUpdateInfo`: the options' `getModrinthVersionInfo` and
  `isArchived` entries are ignored by the code, and are not parameters here.
- `ArchiveCheck.SimilarIff`: the 0.6 threshold is compared on reals.
  JavaScript's floating-point division is not modelled, since the exact ratio
  decides the same way for names of realistic length.
- `ModApi.GetGithubReleaseInfo`: the `User-Agent` header is not modelled.
- `ArchiveCheck.ArchiveExistingModsIn`: the texts of the file-system errors
  are stand-ins. Only which calls throw is modelled.
- `ListLatest.SourceText`: a missing `source` key and a `null` source both
  become `None`. The template string of the "Unsupported source" error prints
  "undefined" for the first and "null" for the second. The model prints
  "undefined" for both.
- `ArchiveCheck.Lcs`, `ArchiveCheck.Similar`: names are sequences of code
  points, where JavaScript's `length` and indexing count UTF-16 code units, so
  a name with characters outside the Basic Multilingual Plane measures
  differently. The similarity check is never switched on by the program.
- Upper- and lower-casing (`ToUpper`, `ToLower`, the `i` flag): only ASCII
  letters change case, where JavaScript maps all of Unicode.

## Findings

| source | as written | input that shows it | evidently intended | confidence | as-written member | corrected member |
|---|---|---|---|---|---|---|
| mod-update-script/archive_check.js:53 | `archiveExistingModFiles(newFileName)` reads `checkSimilarity`, which is not declared. In an ES module this throws a `ReferenceError` on the first `.jar` other than `newFileName`, before anything is moved. | `mods/` holding `testmod-1.1.jar` (the new file) and `testmod-1.0.jar`: the call throws, `testmod-1.0.jar` stays, and picky mode's `handleDownloadAndVersionCheck` returns false | a `checkSimilarity = false` parameter, as the doc comment says: every other `.jar` is moved | not executed | `ArchiveCheck.ArchiveExistingModFilesAsWritten` | `ArchiveCheck.ArchiveExistingModFiles` |

The error is caught by `handleDownloadAndVersionCheck`, so it decides what the
program does: `UpdateMods.HandleDownloadAndVersionCheck` runs the helper as
written, and `UpdateMods.PickyAsWrittenVersusRepaired` relates it to the
corrected helper.
