/** `jsonCache(path, version)`: a versioned record persisted as one JSON
    file. JSON text itself is left abstract: a `Codec` pairs the parser with
    the serialiser, and `Sound` is the one property the store relies on. */
module JsonCache {
  import opened Base
  import opened Filesystem

  /** One fingerprint: a tracked path and the digest of its content. */
  datatype Entry = Entry(path: Path, hash: string)

  /** The `version` property as JSON.parse yields it. Strict equality with a
      number holds only for a number, so a string "1", a boolean, null or a
      missing property are all `OtherTag`. */
  datatype Tag = NumberTag(n: int) | OtherTag

  /** A parsed record: its version and, when the property is present, its
      `files`. A non-null JSON value that is not an object (a number, an
      array) parses as a record with `OtherTag` and no files. */
  datatype Record = Record(version: Tag, files: Option<seq<Entry>>)

  /** What JSON.parse makes of the text: a SyntaxError, the literal `null`,
      or any other value. */
  datatype Document = Malformed | Null | Parsed(record: Record)

  /** `stringify(v, files)` is the text of `{version: v, files}`. */
  datatype Codec = Codec(parse: string -> Document, stringify: (int, seq<Entry>) -> string)

  /** JSON.parse undoes JSON.stringify, and a serialised object is never
      the empty text. */
  ghost predicate Sound(c: Codec) {
    forall v: int, files: seq<Entry> {:trigger c.stringify(v, files)} ::
      c.stringify(v, files) != "" &&
      c.parse(c.stringify(v, files)) == Parsed(Record(NumberTag(v), Some(files)))
  }

  /** `read()`: `undefined` when the file is missing or empty or carries
      another version; JSON.parse's SyntaxError and the TypeError of
      `null.version` propagate, as does any read error but ENOENT. */
  function Read(fs: Fs, c: Codec, path: Path, version: int): (r: Result<Option<Record>, Error>)
    ensures path !in fs ==> r == Ok(None)
    ensures path in fs && fs[path] == File("") ==> r == Ok(None)
    ensures (path in fs && fs[path].File? && c.parse(fs[path].content).Parsed? &&
             c.parse(fs[path].content).record.version != NumberTag(version)) ==> r == Ok(None)
    ensures r.Ok? && r.value.Some? <==>
            path in fs && fs[path].File? && fs[path].content != "" &&
            c.parse(fs[path].content).Parsed? &&
            c.parse(fs[path].content).record.version == NumberTag(version)
    ensures r.Ok? && r.value.Some? ==> r.value.value == c.parse(fs[path].content).record
    ensures ReadMaybe(fs, path).Err? ==> r == Err(ReadMaybe(fs, path).error)
    ensures (path in fs && fs[path].File? && fs[path].content != "" &&
             c.parse(fs[path].content) == Malformed) ==> r == Err(SyntaxError(path))
    ensures (path in fs && fs[path].File? && fs[path].content != "" &&
             c.parse(fs[path].content) == Null) ==> r == Err(TypeError(path))
    ensures r.Err? ==> (r.error.IoError? || r.error.SyntaxError? || r.error.TypeError?) && r.error.path == path
  {
    match ReadMaybe(fs, path)
    case Err(e) => Err(e)
    case Ok(None) => Ok(None)
    case Ok(Some(text)) =>
      if text == "" then Ok(None)
      else match c.parse(text)
        case Malformed => Err(SyntaxError(path))
        case Null => Err(TypeError(path))
        case Parsed(record) => if record.version != NumberTag(version) then Ok(None) else Ok(Some(record))
  }

  /** `write({files})`: the filesystem after the file at `path` is replaced
      by the serialised `{version, files}`; every other path is untouched. */
  function Written(fs: Fs, c: Codec, path: Path, version: int, files: seq<Entry>): (r: Fs)
    ensures r.Keys == fs.Keys + {path}
    ensures r[path] == File(c.stringify(version, files))
    ensures r - {path} == fs - {path}
  {
    fs[path := File(c.stringify(version, files))]
  }

  /** Reading back with the same version yields exactly the files written,
      whatever the file held before. */
  lemma WriteThenRead(fs: Fs, c: Codec, path: Path, version: int, files: seq<Entry>)
    requires Sound(c)
    ensures Read(Written(fs, c, path, version, files), c, path, version) ==
            Ok(Some(Record(NumberTag(version), Some(files))))
  {
  }

  /** A record written under one version is discarded by a reader that
      expects another, although its files are well formed. */
  lemma WriteThenReadOtherVersion(fs: Fs, c: Codec, path: Path, written: int, expected: int, files: seq<Entry>)
    requires Sound(c)
    requires written != expected
    ensures Read(Written(fs, c, path, written, files), c, path, expected) == Ok(None)
  {
  }
}
