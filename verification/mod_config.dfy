/** One entry of `mods_config.json`, with the fields the scripts read or write.
    Every text field may be missing (`None`); `forks` is `None` when it is not an
    array. */
module ModConfig {
  import opened Values

  datatype ModEntry = ModEntry(
    id: Option<string>,
    name: Option<string>,
    slug: Option<string>,
    source: Option<string>,
    owner: Option<string>,
    repo: Option<string>,
    fallbackRepo: Option<string>,
    forks: Option<seq<string>>,
    latestVersion: Option<string>,
    latestStability: Option<string>)

  /** `source === 'MODRINTH' || source === 'MR'`. */
  predicate IsModrinthSource(source: Option<string>) {
    source == Some("MODRINTH") || source == Some("MR")
  }

  /** `source === 'GITHUB' || source === 'GH'`. */
  predicate IsGithubSource(source: Option<string>) {
    source == Some("GITHUB") || source == Some("GH")
  }

  /** `source === 'GITLAB' || source === 'GL'`. */
  predicate IsGitlabSource(source: Option<string>) {
    source == Some("GITLAB") || source == Some("GL")
  }

  predicate IsSupportedSource(source: Option<string>) {
    IsModrinthSource(source) || IsGithubSource(source) || IsGitlabSource(source)
  }
}
