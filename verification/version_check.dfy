/** The post-download check of `versionCheck.js`: read the Minecraft version a
    jar declares in its manifest, reduce it to `1.<minor>.<patch>`, and on a
    mismatch compute where in `mods/.old` the jar is moved. */
module VersionCheck {
  import opened Values
  import opened JsString
  import opened JarFile

  /** What `extractFabricMinecraftVersion` resolves to: a version string,
      `null`, or `undefined` (the loop ran off the end of the manifest). */
  datatype Found = Version(v: string) | Null | Undefined

  /** `v` is `1.` followed by `a` digits, a dot and `b` digits. */
  predicate BaseShape(v: string, a: nat, b: nat) {
    && |v| == 3 + a + b
    && v[0] == '1' && v[1] == '.' && v[2 + a] == '.'
    && (forall i :: 2 <= i < 2 + a ==> IsDigit(v[i]))
    && (forall i :: 3 + a <= i < |v| ==> IsDigit(v[i]))
  }

  /** The language of the pattern `1\.\d{1,2}\.\d{1,2}`. */
  predicate IsBaseVersion(v: string) {
    BaseShape(v, 1, 1) || BaseShape(v, 1, 2) || BaseShape(v, 2, 1) || BaseShape(v, 2, 2)
  }

  /** What a prefix of `token` of shape (`a`, `b`) forces on `token`. */
  lemma BaseShapePrefix(token: string, k: nat, a: nat, b: nat)
    requires k <= |token| && 1 <= a <= 2 && 1 <= b <= 2 && BaseShape(token[..k], a, b)
    ensures 2 < |token| && token[0] == '1' && token[1] == '.'
    ensures Run(token[2..], IsDigit) == a && token[2 + a] == '.'
    ensures b <= Run(token[3 + a..], IsDigit)
    ensures k == 3 + a + b
  {
    var v := token[..k];
    assert forall i :: 0 <= i < k ==> v[i] == token[i];
    forall i | 0 <= i < a
      ensures IsDigit(token[2..][i])
    {
      assert token[2..][i] == v[2 + i];
    }
    RunIs(token[2..], IsDigit, a);
    var rest := token[3 + a..];
    forall i | 0 <= i < b
      ensures IsDigit(rest[i])
    {
      assert rest[i] == v[3 + a + i];
    }
  }

  /** The regular expression `^(1\.\d{1,2}\.\d{1,2})` applied to a token, as the
      backtracking matcher runs it: greedy digit runs, the longer alternative
      first. A match is a prefix in the base-version language. */
  function MatchBaseVersion(token: string): (r: Option<string>)
    ensures r.Some? ==> IsBaseVersion(r.value) && StartsWith(token, r.value)
  {
    if |token| < 2 || token[0] != '1' || token[1] != '.' then None
    else
      var a := Run(token[2..], IsDigit);
      if a == 0 || a > 2 || 2 + a >= |token| || token[2 + a] != '.' then None
      else
        var b := Run(token[3 + a..], IsDigit);
        if b == 0 then None
        else
          var v := token[..3 + a + Min(b, 2)];
          assert BaseShape(v, a, Min(b, 2)) by {
            forall i | 2 <= i < 2 + a
              ensures IsDigit(v[i])
            {
              assert v[i] == token[2..][i - 2];
            }
            forall i | 3 + a <= i < |v|
              ensures IsDigit(v[i])
            {
              assert v[i] == token[3 + a..][i - 3 - a];
            }
          }
          Some(v)
  }

  /** The match is the longest prefix of the token in the base-version language,
      and there is a match whenever some prefix is in it. */
  lemma MatchBaseVersionLongest(token: string, k: nat)
    requires k <= |token| && IsBaseVersion(token[..k])
    ensures MatchBaseVersion(token).Some?
    ensures k <= |MatchBaseVersion(token).value|
  {
    if BaseShape(token[..k], 1, 1) {
      BaseShapePrefix(token, k, 1, 1);
    } else if BaseShape(token[..k], 1, 2) {
      BaseShapePrefix(token, k, 1, 2);
    } else if BaseShape(token[..k], 2, 1) {
      BaseShapePrefix(token, k, 2, 1);
    } else {
      BaseShapePrefix(token, k, 2, 2);
    }
  }

  /** `parseFabricMinecraftVersionLine`: the first non-white-space token after the
      key, reduced to its base version. A missing token or a token that does not
      start with a base version is `null`; nothing is thrown to the caller. */
  function ParseVersionLine(line: string): (r: Option<string>)
    ensures r.Some? ==> StartsWith(line, ManifestKey) && IsBaseVersion(r.value)
  {
    if !StartsWith(line, ManifestKey) then None
    else TokenAfterKey(line[|ManifestKey|..])
  }

  /** What follows the key: the first token after the white space, trimmed (a
      no-op, since it holds no white space) and reduced to its base version. */
  function TokenAfterKey(rest: string): (r: Option<string>)
    ensures r.Some? ==> IsBaseVersion(r.value)
  {
    var w := Run(rest, IsJsSpace);
    var t := Run(rest[w..], IsNonSpace);
    if t == 0 then None
    else MatchBaseVersion(Trim(rest[w..w + t]))
  }

  /** The key followed by `rest` is a key line whose parse is that of `rest`. */
  lemma ParseKeyThen(rest: string)
    ensures ParseVersionLine(ManifestKey + rest) == TokenAfterKey(rest)
  {
    var line := ManifestKey + rest;
    assert line[..|ManifestKey|] == ManifestKey;
    assert line[|ManifestKey|..] == rest;
  }

  /** The token of `w + token + tail`. */
  lemma TokenOf(w: string, token: string, tail: string)
    requires All(w, IsJsSpace)
    requires |token| > 0 && All(token, IsNonSpace)
    requires tail == "" || IsJsSpace(tail[0])
    ensures TokenAfterKey(w + token + tail) == MatchBaseVersion(token)
  {
    var rest := w + token + tail;
    assert rest[|w|] == token[0];
    RunIs(rest, IsJsSpace, |w|);
    var after := rest[|w|..];
    assert after == token + tail;
    RunIs(after, IsNonSpace, |token|);
    assert rest[|w|..|w| + |token|] == token;
    TrimNonSpace(token);
  }

  /** The capture of `\s*(\S+)`: after the key come white space, a token without
      white space, then the end of the line or more white space; the result is
      the token's base version, a prefix of the token. */
  lemma ParseVersionLineToken(w: string, token: string, tail: string)
    requires All(w, IsJsSpace)
    requires |token| > 0 && All(token, IsNonSpace)
    requires tail == "" || IsJsSpace(tail[0])
    ensures ParseVersionLine(ManifestKey + w + token + tail) == MatchBaseVersion(token)
    ensures ParseVersionLine(ManifestKey + w + token + tail).Some? ==>
      StartsWith(token, ParseVersionLine(ManifestKey + w + token + tail).value)
  {
    var rest := w + token + tail;
    assert ManifestKey + w + token + tail == ManifestKey + rest;
    ParseKeyThen(rest);
    TokenOf(w, token, tail);
  }

  /** A key followed only by white space has no token and parses to `null`. */
  lemma ParseVersionLineNoToken(w: string)
    requires All(w, IsJsSpace)
    ensures ParseVersionLine(ManifestKey + w) == None
  {
    ParseKeyThen(w);
    RunIs(w, IsJsSpace, |w|);
  }

  /** A token that starts with `1.`, `a` digits, a dot and exactly `b` digits
      (followed by a non-digit or the end) matches that prefix. */
  lemma BaseExample(token: string, a: nat, b: nat)
    requires 1 <= a <= 2 && 1 <= b <= 2 && 3 + a + b <= |token|
    requires BaseShape(token[..3 + a + b], a, b)
    requires 3 + a + b < |token| ==> !IsDigit(token[3 + a + b])
    ensures MatchBaseVersion(token) == Some(token[..3 + a + b])
  {
    var v := token[..3 + a + b];
    assert forall i :: 0 <= i < 3 + a + b ==> v[i] == token[i];
    RunIs(token[2..], IsDigit, a);
    RunIs(token[3 + a..], IsDigit, b);
  }

  predicate IsKeyLine(line: string) {
    StartsWith(line, ManifestKey)
  }

  /** Line `i` is the first line that starts with the key. */
  predicate IsFirstKeyLine(lines: seq<string>, i: nat)
    requires i < |lines|
  {
    IsKeyLine(lines[i]) && forall j :: 0 <= j < i ==> !IsKeyLine(lines[j])
  }

  function FromParse(o: Option<string>): Found {
    match o
    case Some(v) => Version(v)
    case None => Null
  }

  /** The loop of `extractFabricMinecraftVersion`: the parse of the first line that
      starts with the key, even when that parse is `null`; `undefined` when no
      line starts with the key. */
  function FirstKeyLine(lines: seq<string>): (r: Found)
    ensures r.Undefined? <==> forall i :: 0 <= i < |lines| ==> !IsKeyLine(lines[i])
    ensures forall i :: 0 <= i < |lines| && IsFirstKeyLine(lines, i) ==> r == FromParse(ParseVersionLine(lines[i]))
    ensures r.Version? ==> IsBaseVersion(r.v)
  {
    if |lines| == 0 then Undefined
    else if IsKeyLine(lines[0]) then FromParse(ParseVersionLine(lines[0]))
    else
      var r := FirstKeyLine(lines[1..]);
      assert forall i :: 1 <= i < |lines| ==> lines[i] == lines[1..][i - 1];
      assert forall i :: 1 <= i < |lines| && IsFirstKeyLine(lines, i) ==> IsFirstKeyLine(lines[1..], i - 1);
      r
  }

  /** `extractFabricMinecraftVersion`: an unreadable archive or a missing manifest
      entry gives `null` (the loop over `null` throws and the error is caught). */
  function ExtractFabricMinecraftVersion(jar: Jar): (r: Found)
    ensures jar.Unreadable? ==> r == Null
    ensures jar.Jar? && jar.manifest.None? ==> r == Null
    ensures r.Version? ==> IsBaseVersion(r.v)
    ensures jar.Jar? && jar.manifest.Some? ==> r == FirstKeyLine(ManifestLines(jar.manifest.value))
  {
    match jar
    case Unreadable => Null
    case Jar(manifest, _) =>
      match manifest
      case None => Null
      case Some(text) => FirstKeyLine(ManifestLines(text))
  }

  /** The result of `validateOrArchiveModVersion`. */
  datatype Validation = Validation(valid: bool, archivedPath: Option<string>, foundVersion: Found)

  const MissingModsDir: string := "mods directory not found in path"

  /** Where a jar is moved on a mismatch: the path up to its last `mods` segment,
      then `/.old/`, then the path's last segment. `None` when no segment is `mods`. */
  function ArchivePath(jarPath: string): (r: Option<string>)
    ensures r.None? <==> "mods" !in Split(jarPath, '/')
  {
    var segments := Split(jarPath, '/');
    var idx := LastIndexOf(segments, "mods");
    if idx < 0 then None
    else Some(Join(segments[..idx + 1], '/') + "/.old" + "/" + segments[|segments| - 1])
  }

  /** `validateOrArchiveModVersion`: a matching version is valid and leaves the file
      where it is, whatever the path; any other outcome (including `null` and
      `undefined`) archives the file, except that a path without a `mods` segment
      throws before anything is moved. */
  function ValidateOrArchiveModVersion(jarPath: string, targetVersion: string, jar: Jar): (r: Result<Validation, string>)
    ensures ExtractFabricMinecraftVersion(jar) == Version(targetVersion) ==>
      r == Ok(Validation(true, None, Version(targetVersion)))
    ensures ExtractFabricMinecraftVersion(jar) != Version(targetVersion) ==>
      (r.Err? <==> "mods" !in Split(jarPath, '/'))
    ensures r.Err? ==> r.error == MissingModsDir
    ensures r.Ok? ==> (r.value.valid <==> ExtractFabricMinecraftVersion(jar) == Version(targetVersion))
    ensures r.Ok? ==> r.value.foundVersion == ExtractFabricMinecraftVersion(jar)
    ensures r.Ok? && !r.value.valid ==> r.value.archivedPath.Some? && r.value.archivedPath == ArchivePath(jarPath)
  {
    var found := ExtractFabricMinecraftVersion(jar);
    if found == Version(targetVersion) then Ok(Validation(true, None, found))
    else
      match ArchivePath(jarPath)
      case None => Err(MissingModsDir)
      case Some(p) => Ok(Validation(false, Some(p), found))
  }

  /** The last occurrence of `x` is the one after which `x` no longer occurs. */
  lemma {:induction false} LastIndexOfBefore(xs: seq<string>, x: string, ys: seq<string>)
    requires x !in ys
    ensures LastIndexOf(xs + [x] + ys, x) == |xs|
    decreases |ys|
  {
    var s := xs + [x] + ys;
    if |ys| > 0 {
      assert s[|s| - 1] == ys[|ys| - 1];
      assert s[..|s| - 1] == xs + [x] + ys[..|ys| - 1];
      LastIndexOfBefore(xs, x, ys[..|ys| - 1]);
    }
  }

  lemma SeparatorFreeConcat(dirs: seq<string>, inner: seq<string>)
    requires forall k :: 0 <= k < |dirs| ==> '/' !in dirs[k]
    requires forall k :: 0 <= k < |inner| ==> '/' !in inner[k]
    ensures forall k :: 0 <= k < |dirs + ["mods"] + inner| ==> '/' !in (dirs + ["mods"] + inner)[k]
  {
    var segs := dirs + ["mods"] + inner;
    forall k | 0 <= k < |segs|
      ensures '/' !in segs[k]
    {
      if k < |dirs| {
        assert segs[k] == dirs[k];
      } else if k > |dirs| {
        assert segs[k] == inner[k - |dirs| - 1];
      }
    }
  }

  /** The archive path in terms of the path's segments: for a path built from
      segments `dirs + ["mods"] + inner` with no later `mods`, the jar goes to
      `dirs/mods/.old/<last segment>`. */
  lemma ArchivePathOfSegments(dirs: seq<string>, inner: seq<string>)
    requires |inner| >= 1 && "mods" !in inner
    requires forall k :: 0 <= k < |dirs| ==> '/' !in dirs[k]
    requires forall k :: 0 <= k < |inner| ==> '/' !in inner[k]
    ensures ArchivePath(Join(dirs + ["mods"] + inner, '/'))
      == Some(Join(dirs + ["mods"], '/') + "/.old" + "/" + inner[|inner| - 1])
  {
    var segs := dirs + ["mods"] + inner;
    SeparatorFreeConcat(dirs, inner);
    SplitJoin(segs, '/');
    LastIndexOfBefore(dirs, "mods", inner);
    assert segs[..|dirs| + 1] == dirs + ["mods"];
    assert segs[|segs| - 1] == inner[|inner| - 1];
  }
}
