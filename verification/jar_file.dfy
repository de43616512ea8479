/** A mod `.jar` as the tools see it once the zip layer has been read: the text of
    `META-INF/MANIFEST.MF`, if the archive has that entry, and the parsed
    `fabric.mod.json`, if it has that one. Zip decoding and `JSON.parse` are not
    part of this model; their outcomes are the inputs here. */
module JarFile {
  import opened Values
  import opened JsString

  /** The manifest key that carries the targeted Minecraft version. */
  const ManifestKey: string := "Fabric-Minecraft-Version:"

  /** The value of `depends.minecraft` in `fabric.mod.json`: missing or falsy
      (also when `depends` itself is missing), a string, or any other value
      (an array of ranges, an object, a number). */
  datatype DependsMinecraft = DepMissing | DepText(s: string) | DepOther

  /** The `fabric.mod.json` entry: absent, present but not valid JSON (or
      `null`), or parsed. */
  datatype FabricModJson = NoEntry | Malformed | Parsed(minecraft: DependsMinecraft)

  /** `Unreadable` is an archive the zip reader rejects (it throws). */
  datatype Jar = Unreadable | Jar(manifest: Option<string>, fabricMod: FabricModJson)

  /** `content.split('\n')`: carriage returns of CRLF manifests stay on the lines. */
  function ManifestLines(text: string): (lines: seq<string>)
    ensures |lines| >= 1
    ensures forall k :: 0 <= k < |lines| ==> '\n' !in lines[k]
  {
    Split(text, '\n')
  }
}
