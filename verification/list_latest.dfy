/** The version report of `list_latest_versions.js`: the per-mod status record,
    the command-line flags, the source filter, the batched checking loop, the
    summary counts and the CSV rows. Reading the config file and printing are
    not modelled; the adapters are parameters. */
module ListLatest {
  import opened Values
  import opened JsString
  import opened ModConfig
  import opened ModApi
  import Csv

  const DefaultMcVersion: string := "1.21.8"

  // ------------------------------------------------------------ parseArgs

  datatype Flags = Flags(help: bool, mcVersion: string, format: string, filter: string)

  const McVersionName: string := "--mc-version"
  const FormatName: string := "--format"
  const FilterName: string := "--filter"

  predicate IsMcVersionFlag(a: string) {
    StartsWith(a, McVersionName + "=")
  }

  predicate IsFormatFlag(a: string) {
    StartsWith(a, FormatName + "=")
  }

  predicate IsFilterFlag(a: string) {
    StartsWith(a, FilterName + "=")
  }

  /** `flag.split('=')[1]`: the text between the first `=` and the next one.
      Every flag it is applied to holds an `=`; without one the text is empty. */
  function ValueOf(flag: string): (r: string)
    ensures '=' !in r
  {
    var parts := Split(flag, '=');
    if |parts| >= 2 then parts[1] else ""
  }

  /** The value after a flag's `=` when the value holds no `=`. */
  lemma ValueOfFlag(name: string, v: string)
    requires '=' !in name && '=' !in v
    ensures ValueOf(name + "=" + v) == v
  {
    SplitAt(name, '=', v);
    SplitJoin([v], '=');
  }

  /** `['table', 'json', 'csv']`. */
  predicate IsFormat(f: string) {
    f == "table" || f == "json" || f == "csv"
  }

  /** `['MR', 'GH', 'GL', 'ALL']`. */
  predicate IsFilter(f: string) {
    f == "MR" || f == "GH" || f == "GL" || f == "ALL"
  }

  /** `parseArgs()` over `process.argv.slice(2)`: for each flag the first argument
      carrying it counts; the format is lower-cased and the filter upper-cased,
      and a value outside its list falls back to the default. */
  function ParseArgs(args: seq<string>): (r: Flags)
    ensures r.help <==> "--help" in args || "-h" in args
    ensures IsFormat(r.format) && IsFilter(r.filter)
    ensures FindFirst(args, IsMcVersionFlag) < 0 ==> r.mcVersion == DefaultMcVersion
    ensures FindFirst(args, IsFormatFlag) < 0 ==> r.format == "table"
    ensures FindFirst(args, IsFilterFlag) < 0 ==> r.filter == "ALL"
    ensures FindFirst(args, IsMcVersionFlag) >= 0 ==> r.mcVersion == ValueOf(args[FindFirst(args, IsMcVersionFlag)])
    ensures FindFirst(args, IsFormatFlag) >= 0 ==>
      var f := ToLower(ValueOf(args[FindFirst(args, IsFormatFlag)]));
      r.format == if IsFormat(f) then f else "table"
    ensures FindFirst(args, IsFilterFlag) >= 0 ==>
      var f := ToUpper(ValueOf(args[FindFirst(args, IsFilterFlag)]));
      r.filter == if IsFilter(f) then f else "ALL"
  {
    var help := "--help" in args || "-h" in args;
    var m := FindFirst(args, IsMcVersionFlag);
    var mcVersion := if m >= 0 then ValueOf(args[m]) else DefaultMcVersion;
    var f := FindFirst(args, IsFormatFlag);
    var format := if f >= 0 then ToLower(ValueOf(args[f])) else "table";
    var g := FindFirst(args, IsFilterFlag);
    var filter := if g >= 0 then ToUpper(ValueOf(args[g])) else "ALL";
    Flags(help, mcVersion, if IsFormat(format) then format else "table", if IsFilter(filter) then filter else "ALL")
  }

  /** No argument carries two of the flags. */
  lemma FlagsExclusive(a: string)
    ensures !(IsMcVersionFlag(a) && IsFormatFlag(a))
    ensures !(IsMcVersionFlag(a) && IsFilterFlag(a))
    ensures !(IsFormatFlag(a) && IsFilterFlag(a))
  {
    if IsMcVersionFlag(a) {
      assert a[2] == (McVersionName + "=")[2] == 'm';
    }
    if IsFormatFlag(a) {
      assert a[3] == (FormatName + "=")[3] == 'o';
    }
    if IsFilterFlag(a) {
      assert a[2] == (FilterName + "=")[2] == 'f';
      assert a[3] == (FilterName + "=")[3] == 'i';
    }
  }

  /** A flag written as `name=v` starts with `name=` and gives back `v`. */
  lemma FlagOf(name: string, v: string)
    requires '=' !in name && '=' !in v
    ensures StartsWith(name + "=" + v, name + "=") && ValueOf(name + "=" + v) == v
  {
    ValueOfFlag(name, v);
    assert (name + "=" + v)[..|name + "="|] == name + "=";
  }

  /** Three arguments carrying the three flags in order, none of them a help
      flag, parse to their values. */
  lemma ParseArgsThree(args: seq<string>)
    requires |args| == 3
    requires IsMcVersionFlag(args[0]) && IsFormatFlag(args[1]) && IsFilterFlag(args[2])
    requires "--help" !in args && "-h" !in args
    requires IsFormat(ToLower(ValueOf(args[1]))) && IsFilter(ToUpper(ValueOf(args[2])))
    ensures ParseArgs(args) == Flags(false, ValueOf(args[0]), ToLower(ValueOf(args[1])), ToUpper(ValueOf(args[2])))
  {
    FlagsExclusive(args[0]);
    FlagsExclusive(args[1]);
    assert FindFirst(args, IsMcVersionFlag) == 0;
    assert FindFirst(args, IsFormatFlag) == 1;
    assert FindFirst(args, IsFilterFlag) == 2;
  }

  /** An argument longer than `--help` is not a help flag. */
  lemma LongIsNotHelp(a: string)
    requires |a| > 6
    ensures a != "--help" && a != "-h"
  {
  }

  /** With one argument per flag, `--mc-version=v --format=f --filter=g`, the
      values come back as given, the format lower-cased and the filter
      upper-cased. */
  lemma ParseArgsOf(v: string, f: string, g: string)
    requires '=' !in v && '=' !in f && '=' !in g
    requires IsFormat(ToLower(f)) && IsFilter(ToUpper(g))
    ensures var r := ParseArgs([McVersionName + "=" + v, FormatName + "=" + f, FilterName + "=" + g]);
            r == Flags(false, v, ToLower(f), ToUpper(g))
  {
    var args := [McVersionName + "=" + v, FormatName + "=" + f, FilterName + "=" + g];
    FlagOf(McVersionName, v);
    FlagOf(FormatName, f);
    FlagOf(FilterName, g);
    LongIsNotHelp(args[0]);
    LongIsNotHelp(args[1]);
    LongIsNotHelp(args[2]);
    ParseArgsThree(args);
  }

  // ---------------------------------------------------- fetchModVersionInfo

  /** The record `fetchModVersionInfo` resolves to. */
  datatype VersionStatus = VersionStatus(
    id: Option<string>, name: Option<string>, source: Option<string>, slug: string,
    currentVersion: string, currentStability: string,
    latestVersion: Option<string>, latestStability: Option<string>,
    updateAvailable: bool, error: Option<string>)

  const NoCompatibleVersion: string := "No compatible version found"
  const NoGithubRelease: string := "No GitHub release found"
  const NoGithubUrl: string := "No GitHub repo URL available"
  const NoGitlabRelease: string := "No GitLab release found"
  const NoGitlabUrl: string := "No GitLab repo URL available"

  /** A source as a template literal prints it. */
  function SourceText(source: Option<string>): string {
    if source.Some? then source.value else "undefined"
  }

  function UnsupportedSource(source: Option<string>): string {
    "Unsupported source: " + SourceText(source)
  }

  /** `fetchModVersionInfo(mod, mcVersion)`. Modrinth is asked with the id; GitHub
      and GitLab with `fallback_repo`, and only when it is set. A GitHub record has
      no `tag_name`, so a GitHub row never succeeds. A rejection is caught and its
      message becomes the error. */
  function FetchModVersionInfo(mod: ModEntry, mcVersion: string, adapters: Upstream): (r: VersionStatus)
    ensures r.id == mod.id && r.name == mod.name && r.source == mod.source
    ensures r.slug == TextOr(mod.slug, "")
    ensures r.currentVersion == TextOr(mod.latestVersion, "Unknown")
    ensures r.currentStability == TextOr(mod.latestStability, "Unknown")
    ensures r.error.Some? ==> !r.updateAvailable && r.latestVersion.None? && r.latestStability.None?
    ensures r.error.None? ==> (r.updateAvailable <==> r.latestVersion != mod.latestVersion)
    ensures !IsSupportedSource(mod.source) ==> r.error == Some(UnsupportedSource(mod.source))
    ensures IsModrinthSource(mod.source) ==>
      match adapters.modrinth(mod.id, mcVersion)
      case Err(m) => r.error == Some(m)
      case Ok(MrNotFound(_, _, _)) => r.error == Some(NoCompatibleVersion)
      case Ok(found) => r.error.None? && r.latestVersion == found.latestVersion && r.latestStability == found.latestStability
    ensures IsGitlabSource(mod.source) && r.error.None? ==>
      && Truthy(mod.fallbackRepo) && adapters.gitlab(mod.fallbackRepo).Some?
      && r.latestVersion == adapters.gitlab(mod.fallbackRepo).value.tagName && Truthy(r.latestVersion)
      && r.latestStability == Some(Stability(adapters.gitlab(mod.fallbackRepo).value.prerelease))
    ensures IsGitlabSource(mod.source) && Truthy(mod.fallbackRepo) ==>
      && (r.error.None? <==> adapters.gitlab(mod.fallbackRepo).Some? && Truthy(adapters.gitlab(mod.fallbackRepo).value.tagName))
      && (r.error.Some? ==> r.error == Some(NoGitlabRelease))
  {
    var base := VersionStatus(mod.id, mod.name, mod.source, TextOr(mod.slug, ""),
                              TextOr(mod.latestVersion, "Unknown"), TextOr(mod.latestStability, "Unknown"),
                              None, None, false, None);
    if IsModrinthSource(mod.source) then
      match adapters.modrinth(mod.id, mcVersion)
      case Err(m) => base.(error := Some(m))
      case Ok(MrNotFound(_, _, _)) => base.(error := Some(NoCompatibleVersion))
      case Ok(found) =>
        base.(latestVersion := found.latestVersion, latestStability := found.latestStability,
              updateAvailable := found.latestVersion != mod.latestVersion)
    else if IsGithubSource(mod.source) then
      if Truthy(mod.fallbackRepo) then base.(error := Some(NoGithubRelease))
      else base.(error := Some(NoGithubUrl))
    else if IsGitlabSource(mod.source) then
      if !Truthy(mod.fallbackRepo) then base.(error := Some(NoGitlabUrl))
      else
        var info := adapters.gitlab(mod.fallbackRepo);
        if info.Some? && Truthy(info.value.tagName) then
          base.(latestVersion := info.value.tagName, latestStability := Some(Stability(info.value.prerelease)),
                updateAvailable := info.value.tagName != mod.latestVersion)
        else base.(error := Some(NoGitlabRelease))
    else base.(error := Some(UnsupportedSource(mod.source)))
  }

  /** Every GitHub row is an error, whatever the adapter answers: without
      `fallback_repo` the adapter is not asked, and with it the record lacks
      `tag_name`. */
  lemma GithubRowsFail(mod: ModEntry, mcVersion: string, adapters: Upstream)
    requires IsGithubSource(mod.source)
    ensures FetchModVersionInfo(mod, mcVersion, adapters).error
            == Some(if Truthy(mod.fallbackRepo) then NoGithubRelease else NoGithubUrl)
    ensures !FetchModVersionInfo(mod, mcVersion, adapters).updateAvailable
  {
  }

  /** A GitLab row without `fallback_repo` fails without asking the adapter. */
  lemma GitlabRowWithoutRepo(mod: ModEntry, mcVersion: string, adapters: Upstream, other: Upstream)
    requires IsGitlabSource(mod.source) && !Truthy(mod.fallbackRepo)
    ensures FetchModVersionInfo(mod, mcVersion, adapters).error == Some(NoGitlabUrl)
    ensures FetchModVersionInfo(mod, mcVersion, adapters) == FetchModVersionInfo(mod, mcVersion, other)
  {
  }

  /** The case of a mod with an unknown source and no recorded version. */
  lemma UnsupportedSourceRow(mod: ModEntry, mcVersion: string, adapters: Upstream, src: string)
    requires mod.source == Some(src) && !IsSupportedSource(mod.source)
    requires mod.latestVersion.None? && mod.latestStability.None?
    ensures var r := FetchModVersionInfo(mod, mcVersion, adapters);
            && r.error == Some("Unsupported source: " + src)
            && r.currentVersion == "Unknown" && r.currentStability == "Unknown"
            && !r.updateAvailable
  {
  }

  // --------------------------------------------------------- source filter

  /** `(mod.source || '').toUpperCase()`. */
  function SourceKey(mod: ModEntry): string {
    ToUpper(TextOr(mod.source, ""))
  }

  /** The filter's test for one mod: its upper-cased source is the filter or the
      filter's long name. */
  predicate Keeps(filter: string, mod: ModEntry) {
    || SourceKey(mod) == filter
    || (filter == "MR" && SourceKey(mod) == "MODRINTH")
    || (filter == "GH" && SourceKey(mod) == "GITHUB")
    || (filter == "GL" && SourceKey(mod) == "GITLAB")
  }

  /** The mods to check: all of them for `ALL`, else those the filter keeps, in order. */
  function SourceFilter(mods: seq<ModEntry>, filter: string): (r: seq<ModEntry>)
    ensures filter == "ALL" ==> r == mods
    ensures filter != "ALL" ==> forall m :: m in r <==> m in mods && Keeps(filter, m)
    ensures |r| <= |mods|
  {
    if filter == "ALL" then mods else Filter(mods, m => Keeps(filter, m))
  }

  /** The filter keeps the listing order: filtering a concatenation concatenates
      the filtered parts. */
  lemma SourceFilterAppend(a: seq<ModEntry>, b: seq<ModEntry>, filter: string)
    ensures SourceFilter(a + b, filter) == SourceFilter(a, filter) + SourceFilter(b, filter)
  {
    if filter != "ALL" {
      FilterAppend(a, b, m => Keeps(filter, m));
    }
  }

  /** The filter ignores case but `fetchModVersionInfo` does not: a mod whose source
      is written in lower case passes `--filter=MR` and is then reported as an
      unsupported source. */
  lemma LowerCaseSourcePassesFilter(mod: ModEntry, mcVersion: string, adapters: Upstream)
    requires mod.source == Some("mr")
    ensures Keeps("MR", mod)
    ensures FetchModVersionInfo(mod, mcVersion, adapters).error == Some(UnsupportedSource(Some("mr")))
  {
    assert SourceKey(mod) == ToUpper("mr");
    assert ToUpper("mr")[0] == 'M' && ToUpper("mr")[1] == 'R';
    assert ToUpper("mr") == "MR";
    assert !IsSupportedSource(mod.source);
  }

  // -------------------------------------------------------------- batches

  const BatchSize: nat := 5

  /** `modsToCheck.slice(i, i + 5)` for `i = 0, 5, 10, …`. */
  function Batches<T>(xs: seq<T>): (r: seq<seq<T>>)
    ensures forall b :: 0 <= b < |r| ==> 0 < |r[b]| <= BatchSize
    decreases |xs|
  {
    if |xs| == 0 then []
    else if |xs| <= BatchSize then [xs]
    else [xs[..BatchSize]] + Batches(xs[BatchSize..])
  }

  function Flatten<T>(xss: seq<seq<T>>): seq<T> {
    if |xss| == 0 then [] else xss[0] + Flatten(xss[1..])
  }

  /** Concatenating the batches gives back the list, in order. */
  lemma {:induction false} FlattenBatches<T>(xs: seq<T>)
    ensures Flatten(Batches(xs)) == xs
    decreases |xs|
  {
    if |xs| > BatchSize {
      FlattenBatches(xs[BatchSize..]);
      assert Batches(xs)[1..] == Batches(xs[BatchSize..]);
      assert xs[..BatchSize] + xs[BatchSize..] == xs;
    } else if |xs| > 0 {
      assert Batches(xs)[1..] == [];
    }
  }

  /** There are `⌈n / 5⌉` batches, and all but the last are full. */
  lemma {:induction false} BatchCount<T>(xs: seq<T>)
    ensures |Batches(xs)| == (|xs| + BatchSize - 1) / BatchSize
    ensures forall b :: 0 <= b < |Batches(xs)| - 1 ==> |Batches(xs)[b]| == BatchSize
    decreases |xs|
  {
    if |xs| > BatchSize {
      BatchCount(xs[BatchSize..]);
      assert Batches(xs)[1..] == Batches(xs[BatchSize..]);
    }
  }

  /** The checking loop of `main`: the list in batches of five, each element of
      a batch mapped, the results kept in order, and after each batch the
      progress `min(i + 5, n)`. */
  method MapInBatches<A, B>(xs: seq<A>, f: A -> B) returns (ys: seq<B>, progress: seq<nat>)
    ensures |ys| == |xs|
    ensures forall j :: 0 <= j < |xs| ==> ys[j] == f(xs[j])
    ensures |progress| == (|xs| + BatchSize - 1) / BatchSize
    ensures forall b :: 0 <= b < |progress| ==> progress[b] == Min(BatchSize * b + BatchSize, |xs|)
    ensures |progress| > 0 ==> progress[|progress| - 1] == |xs|
  {
    ys := [];
    progress := [];
    var i := 0;
    while i < |xs|
      invariant 0 <= i <= |xs|
      invariant i == BatchSize * |progress| || (i == |xs| && i < BatchSize * |progress|)
      invariant |progress| == (i + BatchSize - 1) / BatchSize
      invariant |ys| == i
      invariant forall j :: 0 <= j < i ==> ys[j] == f(xs[j])
      invariant forall b :: 0 <= b < |progress| ==> progress[b] == Min(BatchSize * b + BatchSize, |xs|)
      invariant |progress| > 0 ==> progress[|progress| - 1] == i
      decreases |xs| - i
    {
      var end := Min(i + BatchSize, |xs|);
      var batch := xs[i..end];
      var results := seq(|batch|, k requires 0 <= k < |batch| => f(batch[k]));
      ys := ys + results;
      progress := progress + [end];
      i := end;
    }
  }

  /** Every mod to check, through `fetchModVersionInfo`, batch by batch. */
  method CheckInBatches(mods: seq<ModEntry>, mcVersion: string, adapters: Upstream)
    returns (statuses: seq<VersionStatus>, progress: seq<nat>)
    ensures |statuses| == |mods|
    ensures forall j :: 0 <= j < |mods| ==> statuses[j] == FetchModVersionInfo(mods[j], mcVersion, adapters)
    ensures |progress| == (|mods| + BatchSize - 1) / BatchSize
    ensures |progress| > 0 ==> progress[|progress| - 1] == |mods|
  {
    statuses, progress := MapInBatches(mods, m => FetchModVersionInfo(m, mcVersion, adapters));
  }

  // -------------------------------------------------------------- summary

  predicate HasError(s: VersionStatus) {
    Truthy(s.error)
  }

  predicate HasUpdate(s: VersionStatus) {
    s.updateAvailable && !Truthy(s.error)
  }

  predicate UpToDate(s: VersionStatus) {
    !s.updateAvailable && !Truthy(s.error)
  }

  datatype Summary = Summary(total: nat, upToDate: int, updates: nat, errors: nat)

  /** The summary of the table format: up to date is what is left. */
  function TableSummary(xs: seq<VersionStatus>): Summary {
    var errors := Count(xs, HasError);
    var updates := Count(xs, HasUpdate);
    Summary(|xs|, |xs| - errors - updates, updates, errors)
  }

  /** The summary of the JSON format: every count by its own filter. */
  function JsonSummary(xs: seq<VersionStatus>): Summary {
    Summary(|xs|, Count(xs, UpToDate), Count(xs, HasUpdate), Count(xs, HasError))
  }

  /** Each row is exactly one of error, update, up to date, so the two summaries
      agree and total = up to date + updates + errors. */
  lemma {:induction false} SummariesAgree(xs: seq<VersionStatus>)
    ensures TableSummary(xs) == JsonSummary(xs)
    ensures JsonSummary(xs).total == JsonSummary(xs).upToDate + JsonSummary(xs).updates + JsonSummary(xs).errors
    decreases |xs|
  {
    if |xs| > 0 {
      SummariesAgree(xs[1..]);
    }
  }

  // ------------------------------------------------------------------ CSV

  const HeaderFields: seq<string> := ["Name", "ID", "Source", "Slug", "Current Version", "Current Stability",
                                      "Latest Version", "Latest Stability", "Update Available", "Error"]

  /** The header line `formatAsCsv` prints. */
  function Header(): string {
    Join(HeaderFields, ',')
  }

  /** The fields of one row: nine escaped texts and the bare update flag. */
  function RowFields(s: VersionStatus): (r: seq<Csv.Field>)
    ensures |r| == |HeaderFields|
    ensures forall k :: 0 <= k < |r| && r[k].Plain? ==> Csv.PlainOk(r[k].text)
    ensures r[8] == Csv.Plain(if s.updateAvailable then "true" else "false")
    ensures forall k :: 0 <= k < |r| && k != 8 ==> r[k].Escaped?
  {
    var flag := if s.updateAvailable then "true" else "false";
    assert Csv.PlainOk(flag);
    [Csv.Escaped(TextOr(s.name, "")), Csv.Escaped(TextOr(s.id, "")), Csv.Escaped(TextOr(s.source, "")),
     Csv.Escaped(TextOr(Some(s.slug), "")), Csv.Escaped(TextOr(Some(s.currentVersion), "")),
     Csv.Escaped(TextOr(Some(s.currentStability), "")),
     Csv.Escaped(TextOr(s.latestVersion, "")), Csv.Escaped(TextOr(s.latestStability, "")),
     Csv.Plain(flag), Csv.Escaped(TextOr(s.error, ""))]
  }

  /** One row of `formatAsCsv`. */
  function CsvRow(s: VersionStatus): string {
    Csv.EncodeRecord(RowFields(s))
  }

  /** No column name holds a comma. */
  lemma HeaderCommaFree()
    ensures forall k :: 0 <= k < |HeaderFields| ==> ',' !in HeaderFields[k]
  {
    CommaFree5(HeaderFields[..5]);
    CommaFree5(HeaderFields[5..]);
    assert forall k :: 5 <= k < |HeaderFields| ==> HeaderFields[k] == HeaderFields[5..][k - 5];
  }

  lemma CommaFree5(h: seq<string>)
    requires h == HeaderFields[..5] || h == HeaderFields[5..]
    ensures forall k :: 0 <= k < |h| ==> ',' !in h[k]
  {
    if h == HeaderFields[..5] {
      assert h == ["Name", "ID", "Source", "Slug", "Current Version"];
      assert ',' !in h[0] && ',' !in h[1] && ',' !in h[2] && ',' !in h[3] && ',' !in h[4];
    } else {
      assert h == ["Current Stability", "Latest Version", "Latest Stability", "Update Available", "Error"];
      assert ',' !in h[0] && ',' !in h[1] && ',' !in h[2] && ',' !in h[3] && ',' !in h[4];
    }
  }

  /** The header line splits at its commas into the ten column names. */
  lemma HeaderSplits()
    ensures Split(Header(), ',') == HeaderFields
  {
    HeaderCommaFree();
    SplitJoin(HeaderFields, ',');
  }

  /** A row reads back as one field per header column: the update flag as `true`
      or `false`, every other field with its text. */
  lemma CsvRowReadsBack(s: VersionStatus)
    ensures Csv.ParseRecord(CsvRow(s)).Some?
    ensures |Csv.ParseRecord(CsvRow(s)).value| == |HeaderFields|
    ensures Csv.ParseRecord(CsvRow(s)).value
            == [TextOr(s.name, ""), TextOr(s.id, ""), TextOr(s.source, ""),
                s.slug, s.currentVersion, s.currentStability,
                TextOr(s.latestVersion, ""), TextOr(s.latestStability, ""),
                if s.updateAvailable then "true" else "false", TextOr(s.error, "")]
  {
    Csv.ParseEncodeRecord(RowFields(s));
    RowTexts(s);
  }

  /** The texts of a row's fields, column by column. */
  lemma RowTexts(s: VersionStatus)
    ensures Csv.Texts(RowFields(s))
            == [TextOr(s.name, ""), TextOr(s.id, ""), TextOr(s.source, ""),
                s.slug, s.currentVersion, s.currentStability,
                TextOr(s.latestVersion, ""), TextOr(s.latestStability, ""),
                if s.updateAvailable then "true" else "false", TextOr(s.error, "")]
  {
    var fs := RowFields(s);
    assert Csv.Texts(fs)[3] == TextOr(Some(s.slug), "") == s.slug;
    assert Csv.Texts(fs)[4] == TextOr(Some(s.currentVersion), "") == s.currentVersion;
    assert Csv.Texts(fs)[5] == TextOr(Some(s.currentStability), "") == s.currentStability;
  }

  // ----------------------------------------------------------------- main

  /** How `main` ends: help shown, a config without a `mods` array, no mod left
      after filtering, or the report in the chosen format. */
  datatype ListOutcome =
    | ShowHelp
    | InvalidConfig
    | NoMatchingMods
    | Listed(format: string, statuses: seq<VersionStatus>, progress: seq<nat>)

  /** `main()` given the arguments, the `mods` of the config (`None` when missing
      or not an array) and the adapters. */
  method ListLatestVersions(args: seq<string>, mods: Option<seq<ModEntry>>, adapters: Upstream) returns (r: ListOutcome)
    ensures ParseArgs(args).help <==> r.ShowHelp?
    ensures r.InvalidConfig? <==> !ParseArgs(args).help && mods.None?
    ensures r.NoMatchingMods? <==> !ParseArgs(args).help && mods.Some? && SourceFilter(mods.value, ParseArgs(args).filter) == []
    ensures r.Listed? ==>
      var checked := SourceFilter(mods.value, ParseArgs(args).filter);
      && r.format == ParseArgs(args).format
      && |r.statuses| == |checked| > 0
      && forall j :: 0 <= j < |checked| ==> r.statuses[j] == FetchModVersionInfo(checked[j], ParseArgs(args).mcVersion, adapters)
  {
    var flags := ParseArgs(args);
    if flags.help {
      return ShowHelp;
    }
    if mods.None? {
      return InvalidConfig;
    }
    var checked := SourceFilter(mods.value, flags.filter);
    if |checked| == 0 {
      return NoMatchingMods;
    }
    var statuses, progress := CheckInBatches(checked, flags.mcVersion, adapters);
    r := Listed(flags.format, statuses, progress);
  }
}
