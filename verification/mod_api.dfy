/** The release adapters of `mod_api_utils.js`: Modrinth, GitHub and GitLab.
    HTTP is not modelled; each request enters as a function from what the code
    puts in the URL to what awaiting the request gives, and the JSON bodies are
    datatypes holding the fields the code reads. */
module ModApi {
  import opened Values
  import opened JsString

  /** Awaiting `fetchJson(url)`: a rejection (a network error) or the parsed body.
      An empty or unparsable body resolves to `null`. */
  datatype Fetch<+T> = Rejected(message: string) | Resolved(body: T)

  /** `'beta'` for a pre-release, else `'release'`. */
  function Stability(prerelease: bool): string {
    if prerelease then "beta" else "release"
  }

  /** `o || fallback` for a text field. */
  function TextOr(o: Option<string>, fallback: string): (r: string)
    ensures Truthy(o) ==> r == o.value
    ensures !Truthy(o) ==> r == fallback
  {
    if Truthy(o) then o.value else fallback
  }

  // ---------------------------------------------------------------- Modrinth

  datatype MrFile = MrFile(url: Option<string>, filename: Option<string>)

  datatype MrVersion = MrVersion(versionNumber: Option<string>, versionType: Option<string>, files: Option<seq<MrFile>>)

  /** The versions body: anything but an array (`null` included), or an array whose
      items may be `null`. */
  datatype MrVersions = NotAnArray | VersionArray(items: seq<Option<MrVersion>>)

  datatype MrProject = MrProject(slug: Option<string>, title: Option<string>, sourceUrl: Option<string>, repository: Option<string>)

  /** The record `getModrinthVersionInfo` resolves to: `found: true` with the file
      and version fields, or `found: false` with only the project fields. */
  datatype ModrinthInfo =
    | MrFound(fileUrl: Option<string>, fileName: string, latestVersion: Option<string>,
              latestStability: Option<string>, slug: string, projectName: string, sourceUrl: string)
    | MrNotFound(slug: string, projectName: string, sourceUrl: string)

  const NullVersionMessage: string := "Cannot read properties of null (reading 'files')"
  const MissingFilesMessage: string := "Cannot read properties of undefined (reading 'filter')"
  const MissingFilenameMessage: string := "Cannot read properties of undefined (reading 'endsWith')"

  /** The project fields after the guarded metadata request. */
  datatype ProjectFields = ProjectFields(slug: string, projectName: string, sourceUrl: string)

  /** The `try { … } catch {}` around the metadata request: a rejected request, or a
      `null` body whose first field read throws, leaves all three fields `''`. */
  function ReadProject(project: Fetch<Option<MrProject>>): (r: ProjectFields)
    ensures !(project.Resolved? && project.body.Some?) ==> r == ProjectFields("", "", "")
    ensures project.Resolved? && project.body.Some? ==>
      var p := project.body.value;
      && (Truthy(p.slug) ==> r.slug == p.slug.value)
      && (r.slug == "" <==> !Truthy(p.slug))
      && (Truthy(p.title) ==> r.projectName == p.title.value)
      && (r.projectName == "" <==> !Truthy(p.title))
      && (Truthy(p.sourceUrl) ==> r.sourceUrl == p.sourceUrl.value)
      && (!Truthy(p.sourceUrl) && Truthy(p.repository) ==> r.sourceUrl == p.repository.value)
      && (r.sourceUrl == "" <==> !Truthy(p.sourceUrl) && !Truthy(p.repository))
  {
    match project
    case Rejected(_) => ProjectFields("", "", "")
    case Resolved(None) => ProjectFields("", "", "")
    case Resolved(Some(p)) => ProjectFields(TextOr(p.slug, ""), TextOr(p.title, ""), TextOr(p.sourceUrl, TextOr(p.repository, "")))
  }

  predicate MrIsJar(f: MrFile) {
    f.filename.Some? && EndsWith(f.filename.value, ".jar")
  }

  predicate MrNameless(f: MrFile) {
    f.filename.None?
  }

  /** `getModrinthVersionInfo(id, mcVersion)`, given what its two requests give.
      Only `versions[0]` is looked at, and in it the first file whose name ends in
      `.jar`. The versions request is not guarded, so its rejection, and a
      `TypeError` while filtering the first version's files, reject the call. */
  function GetModrinthVersionInfo(versions: Fetch<MrVersions>, project: Fetch<Option<MrProject>>): (r: Result<ModrinthInfo, string>)
    ensures versions.Rejected? ==> r == Err(versions.message)
    ensures r.Ok? ==> (&& r.value.slug == ReadProject(project).slug
                       && r.value.projectName == ReadProject(project).projectName
                       && r.value.sourceUrl == ReadProject(project).sourceUrl)
    ensures versions.Resolved? && (versions.body.NotAnArray? || versions.body.items == []) ==>
      r == Ok(MrNotFound(ReadProject(project).slug, ReadProject(project).projectName, ReadProject(project).sourceUrl))
    ensures versions.Resolved? && versions.body.VersionArray? && versions.body.items != [] ==>
      var first := versions.body.items[0];
      && (first.None? ==> r == Err(NullVersionMessage))
      && (first.Some? && first.value.files.None? ==> r == Err(MissingFilesMessage))
      && (first.Some? && first.value.files.Some? ==>
            var files := first.value.files.value;
            && (Any(files, MrNameless) ==> r == Err(MissingFilenameMessage))
            && (!Any(files, MrNameless) && !Any(files, MrIsJar) ==> r.Ok? && r.value.MrNotFound?)
            && (!Any(files, MrNameless) && Any(files, MrIsJar) ==>
                  var f := files[FindFirst(files, MrIsJar)];
                  r.Ok? && r.value.MrFound?
                  && r.value.fileUrl == f.url && r.value.fileName == f.filename.value
                  && r.value.latestVersion == first.value.versionNumber
                  && r.value.latestStability == first.value.versionType))
  {
    match versions
    case Rejected(message) => Err(message)
    case Resolved(body) =>
      var fields := ReadProject(project);
      var notFound := MrNotFound(fields.slug, fields.projectName, fields.sourceUrl);
      if body.NotAnArray? || |body.items| == 0 then Ok(notFound)
      else
        match body.items[0]
        case None => Err(NullVersionMessage)
        case Some(v) =>
          match v.files
          case None => Err(MissingFilesMessage)
          case Some(files) =>
            if Any(files, MrNameless) then Err(MissingFilenameMessage)
            else
              var jars := Filter(files, MrIsJar);
              FilterFirst(files, MrIsJar);
              if |jars| > 0 then
                Ok(MrFound(jars[0].url, jars[0].filename.value, v.versionNumber, v.versionType,
                           fields.slug, fields.projectName, fields.sourceUrl))
              else Ok(notFound)
  }

  /** The metadata request never decides the outcome: whatever it did, the call
      fails with the same error or succeeds with the same record up to the three
      project fields. */
  lemma ModrinthProjectFailureHarmless(versions: Fetch<MrVersions>, project: Fetch<Option<MrProject>>, other: Fetch<Option<MrProject>>)
    ensures GetModrinthVersionInfo(versions, project).Err? ==>
      GetModrinthVersionInfo(versions, other) == GetModrinthVersionInfo(versions, project)
    ensures GetModrinthVersionInfo(versions, project).Ok? ==>
      var fields := ReadProject(other);
      GetModrinthVersionInfo(versions, other)
      == Ok(GetModrinthVersionInfo(versions, project).value.(slug := fields.slug, projectName := fields.projectName, sourceUrl := fields.sourceUrl))
  {
  }

  // ------------------------------------------------------------------ GitHub

  datatype GhAsset = GhAsset(name: Option<string>, browserDownloadUrl: Option<string>)

  /** A release as the GitHub API returns it; `assets` is `None` when missing. */
  datatype GhRelease = GhRelease(tagName: Option<string>, prerelease: bool, assets: Option<seq<GhAsset>>)

  /** The normalised record `getGithubReleaseInfo` resolves to. It carries
      `found: true` and no `tag_name`, `prerelease` or `assets` field. */
  datatype GithubInfo = GithubInfo(fileUrl: Option<string>, fileName: string, latestVersion: Option<string>, latestStability: string)

  /** The API URL: the first `github.com` becomes `api.github.com/repos`, then
      `/releases/latest` is appended. */
  function GithubApiUrl(repo: string): string {
    ReplaceFirst(repo, "github.com", "api.github.com/repos") + "/releases/latest"
  }

  /** The rewrite in terms of where the first `github.com` is. */
  lemma GithubApiUrlOf(before: string, after: string)
    requires forall i :: 0 <= i < |before| ==> !OccursAt(before + "github.com" + after, "github.com", i)
    ensures GithubApiUrl(before + "github.com" + after) == before + "api.github.com/repos" + after + "/releases/latest"
  {
    var s := before + "github.com" + after;
    assert OccursAt(s, "github.com", |before|) by {
      assert s[|before|..|before| + 10] == "github.com";
    }
    assert s[..|before|] == before;
    assert s[|before| + 10..] == after;
  }

  /** A repository URL on `https://github.com/` maps to the `api.github.com/repos` URL. */
  lemma GithubApiUrlExample(path: string)
    ensures GithubApiUrl("https://" + "github.com" + path) == "https://" + "api.github.com/repos" + path + "/releases/latest"
  {
    var s := "https://" + "github.com" + path;
    forall i | 0 <= i < 8
      ensures !OccursAt(s, "github.com", i)
    {
      assert s[i] != 'g';
      if i + 10 <= |s| {
        assert s[i..i + 10][0] == s[i];
      }
    }
    GithubApiUrlOf("https://", path);
  }

  /** The search of `assets.find(asset => asset.name.endsWith('.jar'))` stops at a
      jar, or at an asset without a name, where the callback throws. */
  predicate GhStops(a: GhAsset) {
    a.name.None? || EndsWith(a.name.value, ".jar")
  }

  /** `getGithubReleaseInfo(repo)`, given what fetching each URL gives: `null` for a
      falsy repo; otherwise the first `.jar` asset of the latest release, with
      stability `'beta'` iff the release is a pre-release. Anything else (no
      release, no assets, no jar, a rejected request, a thrown error) is `null`. */
  function GetGithubReleaseInfo(repo: Option<string>, fetch: string -> Fetch<Option<GhRelease>>): (r: Option<GithubInfo>)
    ensures !Truthy(repo) ==> r.None?
    ensures Truthy(repo) && fetch(GithubApiUrl(repo.value)).Rejected? ==> r.None?
    ensures r.Some? <==>
      && Truthy(repo)
      && fetch(GithubApiUrl(repo.value)).Resolved?
      && fetch(GithubApiUrl(repo.value)).body.Some?
      && var rel := fetch(GithubApiUrl(repo.value)).body.value;
      && rel.assets.Some?
      && FindFirst(rel.assets.value, GhStops) >= 0
      && rel.assets.value[FindFirst(rel.assets.value, GhStops)].name.Some?
    ensures r.Some? ==>
      var rel := fetch(GithubApiUrl(repo.value)).body.value;
      var a := rel.assets.value[FindFirst(rel.assets.value, GhStops)];
      && EndsWith(r.value.fileName, ".jar")
      && r.value == GithubInfo(a.browserDownloadUrl, a.name.value, rel.tagName, Stability(rel.prerelease))
  {
    if !Truthy(repo) then None
    else
      match fetch(GithubApiUrl(repo.value))
      case Rejected(_) => None
      case Resolved(None) => None
      case Resolved(Some(rel)) =>
        match rel.assets
        case None => None
        case Some(assets) =>
          if |assets| == 0 then None
          else
            var k := FindFirst(assets, GhStops);
            if k < 0 || assets[k].name.None? then None
            else Some(GithubInfo(assets[k].browserDownloadUrl, assets[k].name.value, rel.tagName, Stability(rel.prerelease)))
  }

  // ------------------------------------------------------------------ GitLab

  /** An element of `assets.links`: a falsy value, or an object whose `name` and
      `url` the code type-checks. */
  datatype Link = FalsyLink | LinkObject(name: Scalar, url: Scalar)

  /** An `assets.links` chain: falsy somewhere along the way, truthy but not an
      array (so `.find` is not a function), or an array. */
  datatype Links = NoLinks | LinksNotArray | LinkArray(items: seq<Link>)

  datatype GlRelease = NullRelease | GlRelease(tagName: Option<string>, links: Links)

  datatype ReleasesBody = ReleasesNotArray | ReleaseArray(items: seq<GlRelease>)

  /** A tag: `releaseLinks` is `tag.release.assets.links`, `assetLinks` is
      `tag.assets.links`. */
  datatype GlTag = NullTag | GlTag(name: Scalar, releaseLinks: Links, assetLinks: Links)

  datatype TagsBody = TagsNotIterable | TagArray(items: seq<GlTag>)

  /** Awaiting `fetch(url)` and then `res.json()`: a rejection, a response that is
      not `ok`, or an `ok` response whose body parses (`None`: `json()` throws). */
  datatype Response<+B> = FetchRejected | NotOk | HttpOk(body: Option<B>)

  /** The two GitLab endpoints, keyed by the project path before URL-encoding. */
  datatype GitlabApi = GitlabApi(releases: string -> Response<ReleasesBody>, tags: string -> Response<TagsBody>)

  datatype GlAsset = GlAsset(name: string, browserDownloadUrl: Scalar)

  /** The record `getGitlabReleaseInfo` resolves to. It has no `found`, `file_url`,
      `file_name`, `latest_version` or `version` field. */
  datatype GitlabInfo = GitlabInfo(tagName: Option<string>, prerelease: bool, assets: seq<GlAsset>)

  /** `gitlab.com/` at `p`, where the `.` of the pattern is any character but a line
      terminator. */
  predicate GitlabHostAt(s: string, p: nat) {
    p + 11 <= |s| && s[p..p + 6] == "gitlab" && !IsLineTerminator(s[p + 6]) && s[p + 7..p + 11] == "com/"
  }

  /** The pattern `gitlab.com\/(.+?)(?:\.git)?$` matches from `p`: the host, then at
      least one character, and no line terminator up to the end of the input. */
  predicate GitlabMatchAt(s: string, p: nat) {
    GitlabHostAt(s, p) && p + 11 < |s| && forall i :: p + 11 <= i < |s| ==> !IsLineTerminator(s[i])
  }

  /** The leftmost match start at or after `from`, or -1. */
  function GitlabMatchFrom(s: string, from: nat): (r: int)
    ensures r == -1 || (from <= r && GitlabMatchAt(s, r))
    ensures r >= 0 ==> forall p: nat :: from <= p < r ==> !GitlabMatchAt(s, p)
    ensures r == -1 ==> forall p: nat :: from <= p ==> !GitlabMatchAt(s, p)
    decreases |s| - from
  {
    if from + 11 > |s| then -1
    else if GitlabMatchAt(s, from) then from
    else GitlabMatchFrom(s, from + 1)
  }

  /** The capture of `(.+?)(?:\.git)?$` on what follows the host: `.git` is dropped
      from the end when something is left before it. */
  function StripGit(rest: string): string {
    if |rest| > 4 && EndsWith(rest, ".git") then rest[..|rest| - 4] else rest
  }

  /** The lazy group takes the shortest non-empty prefix after which only `.git`
      or nothing is left. */
  lemma StripGitIsShortest(rest: string)
    requires |rest| > 0
    ensures 1 <= |StripGit(rest)| && StartsWith(rest, StripGit(rest))
    ensures rest[|StripGit(rest)|..] == ".git" || |StripGit(rest)| == |rest|
    ensures forall n :: 1 <= n < |StripGit(rest)| ==> rest[n..] != ".git"
  {
  }

  /** `repoUrl.match(…)[1]`: the project path, or `None` when the pattern does not match. */
  function GitlabProjectPath(url: string): (r: Option<string>)
    ensures r.None? <==> forall p: nat :: !GitlabMatchAt(url, p)
    ensures r.Some? ==> exists p: nat :: && GitlabMatchAt(url, p)
                                         && (forall q: nat :: q < p ==> !GitlabMatchAt(url, q))
                                         && r.value == StripGit(url[p + 11..])
  {
    var p := GitlabMatchFrom(url, 0);
    if p < 0 then None else Some(StripGit(url[p + 11..]))
  }

  /** The project path of `https://gitlab.com/<path>` (with or without `.git`). */
  lemma GitlabProjectPathExample(path: string)
    requires |path| > 0 && forall i :: 0 <= i < |path| ==> !IsLineTerminator(path[i])
    ensures GitlabProjectPath("https://" + "gitlab.com/" + path) == Some(StripGit(path))
  {
    var s := "https://" + "gitlab.com/" + path;
    forall q: nat | q < 8
      ensures !GitlabMatchAt(s, q)
    {
      assert s[q] != 'g';
      if q + 6 <= |s| {
        assert s[q..q + 6][0] == s[q];
      }
    }
    assert s[8..14] == "gitlab" && s[15..19] == "com/";
    assert s[19..] == path;
    assert GitlabMatchAt(s, 8);
  }

  /** The callback of the releases path, `a.name.endsWith('.jar') || a.url.endsWith('.jar')`,
      throws on a falsy link, a non-string name, or a non-jar name with a
      non-string url. */
  predicate ReleaseLinkThrows(l: Link) {
    l.FalsyLink? || !l.name.Text? || (!EndsWith(l.name.s, ".jar") && !l.url.Text?)
  }

  predicate ReleaseLinkAccepts(l: Link) {
    l.LinkObject? && l.name.Text? && (EndsWith(l.name.s, ".jar") || (l.url.Text? && EndsWith(l.url.s, ".jar")))
  }

  predicate ReleaseLinkStops(l: Link) {
    ReleaseLinkThrows(l) || ReleaseLinkAccepts(l)
  }

  /** The callback of the tags path: a truthy link with a string name and url, one of
      which ends in `.jar`. It never throws. */
  predicate TagLinkAccepts(l: Link) {
    l.LinkObject? && l.name.Text? && l.url.Text? && (EndsWith(l.name.s, ".jar") || EndsWith(l.url.s, ".jar"))
  }

  /** The links a tag offers: `tag.release.assets.links` when truthy, else `tag.assets.links`. */
  function ChosenLinks(t: GlTag): (r: Links)
    requires t.GlTag?
    ensures t.releaseLinks != NoLinks ==> r == t.releaseLinks
    ensures t.releaseLinks == NoLinks ==> r == t.assetLinks
  {
    if t.releaseLinks != NoLinks then t.releaseLinks else t.assetLinks
  }

  /** Reading `tag.release` of a null tag, or calling `.find` on links that are not
      an array, throws. */
  predicate TagThrows(t: GlTag) {
    t.NullTag? || ChosenLinks(t).LinksNotArray?
  }

  /** The tag qualifies: its links hold an accepted link and its name is a
      non-empty string. */
  predicate TagAccepts(t: GlTag) {
    && t.GlTag? && ChosenLinks(t).LinkArray?
    && FindFirst(ChosenLinks(t).items, TagLinkAccepts) >= 0
    && t.name.Text? && |t.name.s| > 0
  }

  predicate TagStops(t: GlTag) {
    TagThrows(t) || TagAccepts(t)
  }

  /** The record built from a qualifying tag and its first accepted link. */
  function TagInfo(t: GlTag): (r: GitlabInfo)
    requires TagAccepts(t)
    ensures !r.prerelease && |r.assets| == 1 && r.tagName == Some(t.name.s) && |t.name.s| > 0
    ensures TagLinkAccepts(LinkObject(Text(r.assets[0].name), r.assets[0].browserDownloadUrl))
  {
    var links := ChosenLinks(t).items;
    var l := links[FindFirst(links, TagLinkAccepts)];
    GitlabInfo(Some(t.name.s), false, [GlAsset(l.name.s, l.url)])
  }

  /** The releases step either settles the result or falls through to the tags. */
  datatype ReleaseStep = Settled(result: Option<GitlabInfo>) | FallThrough

  /** The releases request: only `releases[0]` is examined. A rejected request, a
      body that does not parse, a null first release and links that are not an
      array end the call with `null`; a response that is not `ok`, a non-array or
      empty body, missing links, and links with no jar fall through to the tags. */
  function FromReleases(resp: Response<ReleasesBody>): (r: ReleaseStep)
    ensures resp.FetchRejected? || resp == HttpOk(None) ==> r == Settled(None)
    ensures resp.NotOk? || resp == HttpOk(Some(ReleasesNotArray)) || resp == HttpOk(Some(ReleaseArray([]))) ==> r == FallThrough
    ensures r.Settled? && r.result.Some? ==>
      && resp.HttpOk? && resp.body.Some? && resp.body.value.ReleaseArray? && |resp.body.value.items| > 0
      && var rel := resp.body.value.items[0];
      && rel.GlRelease? && rel.links.LinkArray?
      && var k := FindFirst(rel.links.items, ReleaseLinkStops);
      && k >= 0 && ReleaseLinkAccepts(rel.links.items[k]) && !ReleaseLinkThrows(rel.links.items[k])
      && r.result.value == GitlabInfo(rel.tagName, false, [GlAsset(rel.links.items[k].name.s, rel.links.items[k].url)])
  {
    match resp
    case FetchRejected => Settled(None)
    case NotOk => FallThrough
    case HttpOk(None) => Settled(None)
    case HttpOk(Some(ReleasesNotArray)) => FallThrough
    case HttpOk(Some(ReleaseArray(rels))) =>
      if |rels| == 0 then FallThrough
      else
        match rels[0]
        case NullRelease => Settled(None)
        case GlRelease(tagName, links) =>
          match links
          case NoLinks => FallThrough
          case LinksNotArray => Settled(None)
          case LinkArray(items) =>
            var k := FindFirst(items, ReleaseLinkStops);
            if k < 0 then FallThrough
            else if ReleaseLinkThrows(items[k]) then Settled(None)
            else Settled(Some(GitlabInfo(tagName, false, [GlAsset(items[k].name.s, items[k].url)])))
  }

  /** The tags request: tags are scanned in order and the first that qualifies
      wins; a thrown error anywhere, or no qualifying tag, gives `null`. */
  function FromTags(resp: Response<TagsBody>): (r: Option<GitlabInfo>)
    ensures !(resp.HttpOk? && resp.body.Some? && resp.body.value.TagArray?) ==> r.None?
    ensures resp.HttpOk? && resp.body.Some? && resp.body.value.TagArray? ==>
      var tags := resp.body.value.items;
      var k := FindFirst(tags, TagStops);
      && (k < 0 ==> r.None?)
      && (k >= 0 && TagThrows(tags[k]) ==> r.None?)
      && (k >= 0 && !TagThrows(tags[k]) ==> r == Some(TagInfo(tags[k])))
  {
    match resp
    case FetchRejected => None
    case NotOk => None
    case HttpOk(None) => None
    case HttpOk(Some(TagsNotIterable)) => None
    case HttpOk(Some(TagArray(tags))) =>
      var k := FindFirst(tags, TagStops);
      if k < 0 || TagThrows(tags[k]) then None else Some(TagInfo(tags[k]))
  }

  /** `getGitlabReleaseInfo(repoUrl)`: `null` when the URL is missing or does not
      match; otherwise the releases step, and the tags only when it falls through.
      Every record has `prerelease: false` and exactly one asset, a jar by name or
      by url. */
  function GetGitlabReleaseInfo(repoUrl: Option<string>, api: GitlabApi): (r: Option<GitlabInfo>)
    ensures repoUrl.None? ==> r.None?
    ensures repoUrl.Some? && GitlabProjectPath(repoUrl.value).None? ==> r.None?
    ensures repoUrl.Some? && GitlabProjectPath(repoUrl.value).Some? ==>
      var path := GitlabProjectPath(repoUrl.value).value;
      && (FromReleases(api.releases(path)).Settled? ==> r == FromReleases(api.releases(path)).result)
      && (FromReleases(api.releases(path)).FallThrough? ==> r == FromTags(api.tags(path)))
    ensures r.Some? ==> !r.value.prerelease && |r.value.assets| == 1
    ensures r.Some? ==> EndsWith(r.value.assets[0].name, ".jar")
                        || (r.value.assets[0].browserDownloadUrl.Text? && EndsWith(r.value.assets[0].browserDownloadUrl.s, ".jar"))
  {
    match repoUrl
    case None => None
    case Some(url) =>
      match GitlabProjectPath(url)
      case None => None
      case Some(path) =>
        match FromReleases(api.releases(path))
        case Settled(result) => result
        case FallThrough => FromTags(api.tags(path))
  }

  /** A release whose first stopping link is a jar decides the call; the tags
      request plays no part. */
  lemma GitlabReleaseWins(url: string, api: GitlabApi, tagName: Option<string>, before: seq<Link>, jar: Link, after: seq<Link>)
    requires GitlabProjectPath(url).Some?
    requires api.releases(GitlabProjectPath(url).value)
             == HttpOk(Some(ReleaseArray([GlRelease(tagName, LinkArray(before + [jar] + after))])))
    requires forall i :: 0 <= i < |before| ==> !ReleaseLinkStops(before[i])
    requires ReleaseLinkAccepts(jar) && !ReleaseLinkThrows(jar)
    ensures GetGitlabReleaseInfo(Some(url), api) == Some(GitlabInfo(tagName, false, [GlAsset(jar.name.s, jar.url)]))
  {
    var items := before + [jar] + after;
    assert items[|before|] == jar;
    assert forall i :: 0 <= i < |before| ==> items[i] == before[i];
  }

  /** With an empty releases list, the first qualifying tag decides, and its
      `release.assets.links` are preferred to its `assets.links`. */
  lemma GitlabTagFallback(url: string, api: GitlabApi, name: string, links: seq<Link>, others: Links)
    requires GitlabProjectPath(url).Some?
    requires api.releases(GitlabProjectPath(url).value) == HttpOk(Some(ReleaseArray([])))
    requires |name| > 0 && FindFirst(links, TagLinkAccepts) >= 0
    requires api.tags(GitlabProjectPath(url).value) == HttpOk(Some(TagArray([GlTag(Text(name), LinkArray(links), others)])))
    ensures var l := links[FindFirst(links, TagLinkAccepts)];
            GetGitlabReleaseInfo(Some(url), api) == Some(GitlabInfo(Some(name), false, [GlAsset(l.name.s, l.url)]))
  {
    var t := GlTag(Text(name), LinkArray(links), others);
    assert TagStops([t][0]);
  }

  // ---------------------------------------------------------------- together

  /** The three adapters as the scripts call them: Modrinth with a project id and
      a Minecraft version, GitHub and GitLab with one repository argument. */
  datatype Upstream = Upstream(
    modrinth: (Option<string>, string) -> Result<ModrinthInfo, string>,
    github: Option<string> -> Option<GithubInfo>,
    gitlab: Option<string> -> Option<GitlabInfo>)

  /** The real adapters over given network responses. */
  function DefaultUpstream(
    versions: (Option<string>, string) -> Fetch<MrVersions>,
    project: Option<string> -> Fetch<Option<MrProject>>,
    githubFetch: string -> Fetch<Option<GhRelease>>,
    gitlabApi: GitlabApi): (r: Upstream)
    ensures forall id, mc :: r.modrinth(id, mc) == GetModrinthVersionInfo(versions(id, mc), project(id))
    ensures forall repo :: r.github(repo) == GetGithubReleaseInfo(repo, githubFetch)
    ensures forall repo :: r.gitlab(repo) == GetGitlabReleaseInfo(repo, gitlabApi)
  {
    Upstream(
      (id, mc) => GetModrinthVersionInfo(versions(id, mc), project(id)),
      repo => GetGithubReleaseInfo(repo, githubFetch),
      repo => GetGitlabReleaseInfo(repo, gitlabApi))
  }
}
