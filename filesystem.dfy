/** The filesystem as the loader sees it: `existsSync`, `readFileSync` and
    the `readMaybeFileSync` wrapper of src/index.ts. */
module Filesystem {
  import opened Base

  /** The error code Node gives a read of a path that does not exist. */
  const ENOENT: string := "ENOENT"

  /** What a path holds: a readable text file, or something that exists but
      whose read throws (a directory, a file without read permission, ...). */
  datatype Node = File(content: string) | Unreadable(code: string)

  /** A path missing from the map does not exist. */
  type Fs = map<Path, Node>

  /** The outcome of `readFileSync`: the text, or the code of the error thrown. */
  datatype ReadOutcome = Contents(text: string) | Failed(code: string)

  /** `existsSync`: the path names something, readable or not. */
  predicate Exists(fs: Fs, p: Path)
    ensures !Exists(fs, p) ==> ReadFile(fs, p) == Failed(ENOENT)
    ensures ReadFile(fs, p).Contents? ==> Exists(fs, p)
  {
    p in fs
  }

  /** `readFileSync(p)`: throws ENOENT for a missing path and the node's own
      code for an unreadable one. */
  function ReadFile(fs: Fs, p: Path): (r: ReadOutcome)
    ensures r.Contents? <==> p in fs && fs[p].File?
    ensures r.Contents? ==> r.text == fs[p].content
    ensures p !in fs ==> r == Failed(ENOENT)
  {
    if p !in fs then Failed(ENOENT)
    else match fs[p]
      case File(text) => Contents(text)
      case Unreadable(code) => Failed(code)
  }

  /** `readMaybeFileSync(p)`: the text, `undefined` exactly when the read
      failed with ENOENT, and every other read error re-thrown unchanged. */
  function ReadMaybe(fs: Fs, p: Path): (r: Result<Option<string>, Error>)
    ensures r == Ok(None) <==> ReadFile(fs, p) == Failed(ENOENT)
    ensures r.Ok? && r.value.Some? <==> ReadFile(fs, p).Contents?
    ensures r.Ok? && r.value.Some? ==> r.value.value == ReadFile(fs, p).text
    ensures r.Err? <==> ReadFile(fs, p).Failed? && ReadFile(fs, p).code != ENOENT
    ensures r.Err? ==> r.error == IoError(p, ReadFile(fs, p).code)
  {
    match ReadFile(fs, p)
    case Contents(text) => Ok(Some(text))
    case Failed(code) => if code == ENOENT then Ok(None) else Err(IoError(p, code))
  }
}
