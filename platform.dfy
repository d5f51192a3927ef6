/** The host facilities the launcher reaches through Node and Electron, as plain values:
    the file system is a set of maps from path to what `statSync`, `readFileSync` and
    `require(...).version` would return, and JSON and the signature primitive are
    arbitrary functions, so every property proved below holds whatever they compute. */
module Platform {
  type Path = string
  type Bytes = seq<bv8>
  /** The embedded PEM public key the launcher verifies every signature with. */
  type PublicKey = string

  datatype Option<T> = None | Some(value: T)

  /** File times as `Date.getTime()` values. */
  datatype Stat = Stat(mtime: int, ctime: int)

  /** A path is absent from a map exactly when the corresponding call throws:
      `stats` for `statSync`, `contents` for `readFileSync`, and `versions` for
      `require(path).version` yielding a string (a missing or non-string version makes
      the later `.split` throw, which the launcher treats the same way). */
  datatype FileSystem = FileSystem(
    stats: map<Path, Stat>,
    contents: map<Path, Bytes>,
    versions: map<Path, string>)

  /** Everything outside the launcher that its decisions depend on.
      `parseJson` yields None when `JSON.parse` throws or gives something other than an
      object of strings; `verify(key, data, sig)` is RSASSA-PKCS1-v1_5 with SHA-256
      (section 8.2 of RFC 8017) over `data`, with `sig` still base64-encoded. */
  datatype Host = Host(
    fs: FileSystem,
    parseJson: Bytes -> Option<map<string, string>>,
    stringify: map<string, string> -> Bytes,
    verify: (PublicKey, Bytes, string) -> bool)

  /** `path.join` of a directory and a relative name. */
  function PathJoin(dir: Path, name: string): Path
  {
    dir + "/" + name
  }

  predicate EndsWith(s: string, suffix: string)
  {
    |suffix| <= |s| && s[|s| - |suffix|..] == suffix
  }
}
