/** `loadConfig(name)` of src/index.ts as a function of a snapshot of the
    process's world: the paths it derives, the all-or-nothing validity test
    of the fingerprint record, the rebuild that rewrites the record, and the
    resolution of the artifact's `config` export. Runtime.Process runs the
    same steps imperatively and is proved to agree with `LoadConfig`. */
module ConfigLoader {
  import opened Base
  import opened Filesystem
  import opened JsonCache

  /** The schema version loadConfig passes to jsonCache. */
  const Version: int := 1

  // ---------------------------------------------------------------------
  // Paths derived from the entrypoint's name

  /** `<name>.config.ts`: the name followed by the fixed suffix. */
  function EntryPoint(name: string): (r: Path)
    ensures |r| == |name| + 10 && r[..|name|] == name && r[|name|..] == ".config.ts"
  {
    name + ".config.ts"
  }

  /** `node_modules/.<name>`: a dot-prefixed directory named after the entrypoint. */
  function CacheDir(name: string): (r: Path)
    ensures |r| == 14 + |name| && r[..14] == "node_modules/." && r[14..] == name
  {
    "node_modules/." + name
  }

  /** `<cacheDir>/config.js`: where the bundler writes the artifact. */
  function ArtifactPath(name: string): (r: Path)
    ensures CacheDir(name) <= r && r[|CacheDir(name)|..] == "/config.js"
  {
    CacheDir(name) + "/config.js"
  }

  /** `<cacheDir>/config-hashes.json`: where jsonCache keeps the record. */
  function RecordPath(name: string): (r: Path)
    ensures CacheDir(name) <= r && r[|CacheDir(name)|..] == "/config-hashes.json"
  {
    CacheDir(name) + "/config-hashes.json"
  }

  /** The three derived paths never collide with each other, for any two
      names, and each is injective: no two entrypoints share a cache. */
  lemma PathsDistinct(n: string, m: string)
    ensures EntryPoint(n) != ArtifactPath(m)
    ensures EntryPoint(n) != RecordPath(m)
    ensures ArtifactPath(n) != RecordPath(m)
    ensures EntryPoint(n) == EntryPoint(m) ==> n == m
    ensures ArtifactPath(n) == ArtifactPath(m) ==> n == m
    ensures RecordPath(n) == RecordPath(m) ==> n == m
  {
    var e, a, r := EntryPoint(n), ArtifactPath(m), RecordPath(m);
    assert e[|e| - 2] == 't' && e[|e| - 1] == 's';
    assert a[|a| - 2] == 'j' && a[|a| - 1] == 's';
    assert r[|r| - 1] == 'n';
    assert ArtifactPath(n)[|ArtifactPath(n)| - 1] == 's';
    if EntryPoint(n) == EntryPoint(m) {
      assert n == EntryPoint(n)[..|n|] && m == EntryPoint(m)[..|m|];
    }
    if ArtifactPath(n) == ArtifactPath(m) {
      assert n == ArtifactPath(n)[14..14 + |n|] && m == ArtifactPath(m)[14..14 + |m|];
    }
    if RecordPath(n) == RecordPath(m) {
      assert n == RecordPath(n)[14..14 + |n|] && m == RecordPath(m)[14..14 + |m|];
    }
  }

  // ---------------------------------------------------------------------
  // Cache validity: `files.some(([path, hash]) => ...)`

  /** A recorded entry still vouches for its file: the file reads, is not
      empty, and hashes to the recorded digest. */
  predicate Fresh(fs: Fs, digest: string -> string, e: Entry) {
    e.path in fs && fs[e.path].File? && fs[e.path].content != "" &&
    digest(fs[e.path].content) == e.hash
  }

  /** Every entry that `some` reaches, that is every entry whose predecessors
      are all fresh, reads or is missing: readMaybeFileSync throws for none
      of them. Entries after the first non-fresh one are never read. */
  predicate ReadsUntilStale(fs: Fs, digest: string -> string, files: seq<Entry>) {
    forall k :: 0 <= k < |files| && (forall j :: 0 <= j < k ==> Fresh(fs, digest, files[j])) ==>
      ReadMaybe(fs, files[k].path).Ok?
  }

  /** The callback of `files.some`, left to right, stopping at the first
      entry that is missing, empty or re-hashes differently; a read error
      other than ENOENT escapes. */
  function Stale(fs: Fs, digest: string -> string, files: seq<Entry>): (r: Result<bool, Error>)
    ensures r.Err? ==>
              exists k :: 0 <= k < |files| && ReadMaybe(fs, files[k].path).Err? &&
                          r.error == ReadMaybe(fs, files[k].path).error
    decreases |files|
  {
    if files == [] then Ok(false)
    else match ReadMaybe(fs, files[0].path)
      case Err(e) => Err(e)
      case Ok(content) =>
        if content.None? || content.value == "" || digest(content.value) != files[0].hash then Ok(true)
        else Stale(fs, digest, files[1..])
  }

  /** The record is trusted exactly when every entry is fresh. */
  lemma {:induction false} ValidIffAllFresh(fs: Fs, digest: string -> string, files: seq<Entry>)
    ensures Stale(fs, digest, files) == Ok(false) <==>
            forall i :: 0 <= i < |files| ==> Fresh(fs, digest, files[i])
    decreases |files|
  {
    if files != [] {
      ValidIffAllFresh(fs, digest, files[1..]);
      if forall i :: 0 <= i < |files| ==> Fresh(fs, digest, files[i]) {
        assert Fresh(fs, digest, files[0]);
        assert forall i :: 0 <= i < |files[1..]| ==> Fresh(fs, digest, files[1..][i]) by {
          forall i | 0 <= i < |files[1..]| ensures Fresh(fs, digest, files[1..][i]) {
            assert files[1..][i] == files[i + 1];
          }
        }
      }
      if Stale(fs, digest, files) == Ok(false) {
        forall i | 0 <= i < |files| ensures Fresh(fs, digest, files[i]) {
          if i > 0 { assert files[i] == files[1..][i - 1]; }
        }
      }
    }
  }

  /** The test yields a verdict exactly when every entry it reaches reads
      or is missing; otherwise it throws. */
  lemma {:induction false} ReadableNeverThrows(fs: Fs, digest: string -> string, files: seq<Entry>)
    ensures Stale(fs, digest, files).Ok? <==> ReadsUntilStale(fs, digest, files)
    decreases |files|
  {
    if files != [] {
      ReadableNeverThrows(fs, digest, files[1..]);
      var tail := files[1..];
      if Fresh(fs, digest, files[0]) {
        if ReadsUntilStale(fs, digest, files) {
          forall k | 0 <= k < |tail| && (forall j :: 0 <= j < k ==> Fresh(fs, digest, tail[j]))
            ensures ReadMaybe(fs, tail[k].path).Ok?
          {
            assert tail[k] == files[k + 1];
            forall j | 0 <= j < k + 1 ensures Fresh(fs, digest, files[j]) {
              if j > 0 { assert files[j] == tail[j - 1]; }
            }
          }
        }
        if ReadsUntilStale(fs, digest, tail) {
          forall k | 0 <= k < |files| && (forall j :: 0 <= j < k ==> Fresh(fs, digest, files[j]))
            ensures ReadMaybe(fs, files[k].path).Ok?
          {
            if k > 0 {
              assert files[k] == tail[k - 1];
              forall j | 0 <= j < k - 1 ensures Fresh(fs, digest, tail[j]) {
                assert tail[j] == files[j + 1];
              }
            }
          }
        }
      }
    }
  }

  /** `some` short-circuits: the first entry that is not fresh decides. If
      it reads (or is missing) the cache is stale; otherwise its read error
      is thrown. Entries after it are never read. */
  lemma {:induction false} FirstNonFreshDecides(fs: Fs, digest: string -> string, files: seq<Entry>, k: nat)
    requires k < |files|
    requires forall j :: 0 <= j < k ==> Fresh(fs, digest, files[j])
    requires !Fresh(fs, digest, files[k])
    ensures Stale(fs, digest, files) ==
            match ReadMaybe(fs, files[k].path)
            case Ok(_) => Ok(true)
            case Err(e) => Err(e)
    decreases k
  {
    if k > 0 {
      assert Fresh(fs, digest, files[0]);
      assert files[1..][k - 1] == files[k];
      forall j | 0 <= j < k - 1 ensures Fresh(fs, digest, files[1..][j]) {
        assert files[1..][j] == files[j + 1];
      }
      FirstNonFreshDecides(fs, digest, files[1..], k - 1);
    }
  }

  /** One mismatching entry invalidates the whole record, provided no
      entry up to it throws on read (later entries are never read). */
  lemma {:induction false} SingleMismatchSuffices(fs: Fs, digest: string -> string, files: seq<Entry>, k: nat)
    requires k < |files|
    requires forall j :: 0 <= j <= k ==> ReadMaybe(fs, files[j].path).Ok?
    requires !Fresh(fs, digest, files[k])
    ensures Stale(fs, digest, files) == Ok(true)
    decreases k
  {
    if Fresh(fs, digest, files[0]) {
      assert files[1..][k - 1] == files[k];
      forall j | 0 <= j <= k - 1 ensures ReadMaybe(fs, files[1..][j].path).Ok? {
        assert files[1..][j] == files[j + 1];
      }
      SingleMismatchSuffices(fs, digest, files[1..], k - 1);
    } else {
      assert ReadMaybe(fs, files[0].path).Ok?;
    }
  }

  /** Deleting a tracked file forces a rebuild, unless an earlier entry throws on read. */
  lemma DeletedFileInvalidates(fs: Fs, digest: string -> string, files: seq<Entry>, k: nat)
    requires k < |files|
    requires forall j :: 0 <= j <= k ==> ReadMaybe(fs, files[j].path).Ok?
    ensures Stale(fs - {files[k].path}, digest, files) == Ok(true)
  {
    var fs' := fs - {files[k].path};
    forall i | 0 <= i <= k ensures ReadMaybe(fs', files[i].path).Ok? {
      assert ReadMaybe(fs, files[i].path).Ok?;
    }
    SingleMismatchSuffices(fs', digest, files, k);
  }

  /** Rewriting a tracked file with content whose digest differs from the
      recorded one forces a rebuild, unless an earlier entry throws on read. */
  lemma ModifiedFileInvalidates(fs: Fs, digest: string -> string, files: seq<Entry>, k: nat, text: string)
    requires k < |files|
    requires forall j :: 0 <= j <= k ==> ReadMaybe(fs, files[j].path).Ok?
    requires digest(text) != files[k].hash
    ensures Stale(fs[files[k].path := File(text)], digest, files) == Ok(true)
  {
    var fs' := fs[files[k].path := File(text)];
    forall i | 0 <= i <= k ensures ReadMaybe(fs', files[i].path).Ok? {
      assert ReadMaybe(fs, files[i].path).Ok?;
    }
    SingleMismatchSuffices(fs', digest, files, k);
  }

  // ---------------------------------------------------------------------
  // Fingerprinting the build's inputs: `.map((path) => [path, getHash(readFileSync(path))])`

  /** Reads and hashes every input in order; the first read failure, even
      ENOENT, is thrown and nothing is produced. */
  function HashInputs(fs: Fs, digest: string -> string, paths: seq<Path>): (r: Result<seq<Entry>, Error>)
    ensures r.Ok? <==> forall i :: 0 <= i < |paths| ==> ReadFile(fs, paths[i]).Contents?
    ensures r.Ok? ==> |r.value| == |paths|
    ensures r.Ok? ==> forall i :: 0 <= i < |paths| ==>
              r.value[i] == Entry(paths[i], digest(ReadFile(fs, paths[i]).text))
    ensures r.Err? ==>
              exists k :: 0 <= k < |paths| && ReadFile(fs, paths[k]).Failed? &&
                          (forall j :: 0 <= j < k ==> ReadFile(fs, paths[j]).Contents?) &&
                          r.error == IoError(paths[k], ReadFile(fs, paths[k]).code)
    decreases |paths|
  {
    if paths == [] then Ok([])
    else match ReadFile(fs, paths[0])
      case Failed(code) => Err(IoError(paths[0], code))
      case Contents(text) =>
        match HashInputs(fs, digest, paths[1..])
        case Err(e) => Err(e)
        case Ok(rest) => Ok([Entry(paths[0], digest(text))] + rest)
  }

  // ---------------------------------------------------------------------
  // The `config` export

  /** A JavaScript value as far as truthiness goes (NaN and -0 are left out). */
  datatype Value =
    | Undefined
    | Null
    | Bool(b: bool)
    | Number(n: int)
    | Text(s: string)
    | Array(items: seq<Value>)
    | Object(fields: map<string, Value>)

  /** `module.config`: absent, a plain value, or a factory function, given
      by the value its promise resolves to. */
  datatype Export = Missing | Plain(value: Value) | Factory(result: Value)

  predicate Truthy(v: Value) {
    match v
    case Undefined => false
    case Null => false
    case Bool(b) => b
    case Number(n) => n != 0
    case Text(s) => s != ""
    case Array(_) => true
    case Object(_) => true
  }

  /** `!module.config` is false: functions are always truthy. */
  predicate Present(x: Export) {
    match x
    case Missing => false
    case Plain(v) => Truthy(v)
    case Factory(_) => true
  }

  /** The message of the error thrown for a missing export. */
  function MissingExportMessage(entry: Path): string {
    entry + " doesn't have a \"config\" export"
  }

  /** Throws, naming the entrypoint, exactly when the export is not truthy;
      a factory is invoked and its result returned; any other value is
      returned as it is. */
  function Resolve(entry: Path, x: Export): (r: Result<Value, Error>)
    ensures r.Err? <==> !Present(x)
    ensures r.Err? ==> r.error.MissingExport? && entry <= r.error.message
    ensures x.Factory? ==> r == Ok(x.result)
    ensures x.Plain? && Truthy(x.value) ==> r == Ok(x.value)
  {
    if !Present(x) then Err(MissingExport(MissingExportMessage(entry)))
    else match x
      case Factory(result) => Ok(result)
      case Plain(v) => Ok(v)
  }

  // ---------------------------------------------------------------------
  // The world loadConfig acts on, and its collaborators

  /** What `esbuild.build` does: resolves with the paths of the inputs it
      read (in the metafile's order) and the artifact it writes, or rejects. */
  datatype Build = Built(inputs: seq<Path>, artifact: string) | Rejected(message: string)

  /** The collaborators: getHash, the JSON codec, the bundler, and what
      executing the artifact's text exports as `config`. */
  datatype Env = Env(
    digest: string -> string,
    codec: Codec,
    bundle: (Fs, Path) -> Build,
    evaluate: string -> Export)

  /** The files, the number of bundler invocations so far, and Node's
      require cache (path of a loaded module to its export). */
  datatype World = World(fs: Fs, builds: nat, modules: map<Path, Export>)

  /** `cache.read()?.files`. */
  function RecordedFiles(env: Env, fs: Fs, name: string): (r: Result<Option<seq<Entry>>, Error>)
    ensures r.Err? <==> Read(fs, env.codec, RecordPath(name), Version).Err?
    ensures r.Err? ==> r.error == Read(fs, env.codec, RecordPath(name), Version).error
    ensures r == Ok(None) <==>
              || Read(fs, env.codec, RecordPath(name), Version) == Ok(None)
              || (Read(fs, env.codec, RecordPath(name), Version).Ok? &&
                  Read(fs, env.codec, RecordPath(name), Version).value.Some? &&
                  Read(fs, env.codec, RecordPath(name), Version).value.value.files.None?)
    ensures r.Ok? && r.value.Some? ==>
              Read(fs, env.codec, RecordPath(name), Version) == Ok(Some(Record(NumberTag(Version), r.value)))
  {
    match Read(fs, env.codec, RecordPath(name), Version)
    case Err(e) => Err(e)
    case Ok(None) => Ok(None)
    case Ok(Some(record)) => Ok(record.files)
  }

  /** The condition of the `if` at lines 20-26: no files recorded, or a stale one. */
  function NeedsBuild(env: Env, fs: Fs, name: string): (r: Result<bool, Error>)
    ensures r == Ok(false) <==>
              && RecordedFiles(env, fs, name).Ok?
              && RecordedFiles(env, fs, name).value.Some?
              && forall i :: 0 <= i < |RecordedFiles(env, fs, name).value.value| ==>
                   Fresh(fs, env.digest, RecordedFiles(env, fs, name).value.value[i])
    ensures RecordedFiles(env, fs, name) == Ok(None) ==> r == Ok(true)
    ensures RecordedFiles(env, fs, name).Err? ==> r == Err(RecordedFiles(env, fs, name).error)
    ensures RecordedFiles(env, fs, name).Ok? && RecordedFiles(env, fs, name).value.Some? ==>
              r == Stale(fs, env.digest, RecordedFiles(env, fs, name).value.value)
  {
    match RecordedFiles(env, fs, name)
    case Err(e) => Err(e)
    case Ok(None) => Ok(true)
    case Ok(Some(files)) =>
      ValidIffAllFresh(fs, env.digest, files);
      Stale(fs, env.digest, files)
  }

  /** The filesystem once the bundler has written the artifact. */
  function WithArtifact(fs: Fs, name: string, artifact: string): Fs {
    fs[ArtifactPath(name) := File(artifact)]
  }

  /** `require(output)`: a module loaded before is returned from the cache;
      otherwise the artifact is read and evaluated, and the cache remembers it. */
  function Require(evaluate: string -> Export, modules: map<Path, Export>, fs: Fs, p: Path)
    : (r: Result<(map<Path, Export>, Export), Error>)
    ensures p in modules ==> r == Ok((modules, modules[p]))
    ensures p !in modules ==> (r.Ok? <==> ReadFile(fs, p).Contents?)
    ensures p !in modules && r.Ok? ==> r.value.1 == evaluate(ReadFile(fs, p).text)
    ensures r.Ok? ==> r.value.0 == modules[p := r.value.1]
  {
    if p in modules then Ok((modules, modules[p]))
    else match ReadFile(fs, p)
      case Failed(code) => if code == ENOENT then Err(ModuleNotFound(p)) else Err(IoError(p, code))
      case Contents(text) =>
        var x := evaluate(text);
        Ok((modules[p := x], x))
  }

  /** Lines 43-50: load the artifact and resolve its export. */
  function Finish(env: Env, w: World, name: string): (out: (World, Result<Option<Value>, Error>))
    ensures out.0.fs == w.fs && out.0.builds == w.builds
    ensures out.1 != Ok(None)
    ensures var loaded := Require(env.evaluate, w.modules, w.fs, ArtifactPath(name));
            && (loaded.Err? ==> out == (w, Err(loaded.error)))
            && (loaded.Ok? ==> out.0.modules == loaded.value.0)
            && (loaded.Ok? && !Present(loaded.value.1) ==>
                  out.1 == Err(MissingExport(MissingExportMessage(EntryPoint(name)))))
            && (loaded.Ok? && loaded.value.1.Factory? ==> out.1 == Ok(Some(loaded.value.1.result)))
            && (loaded.Ok? && loaded.value.1.Plain? && Truthy(loaded.value.1.value) ==>
                  out.1 == Ok(Some(loaded.value.1.value)))
  {
    match Require(env.evaluate, w.modules, w.fs, ArtifactPath(name))
    case Err(e) => (w, Err(e))
    case Ok((modules, x)) =>
      (w.(modules := modules),
       match Resolve(EntryPoint(name), x)
       case Err(e) => Err(e)
       case Ok(v) => Ok(Some(v)))
  }

  /** Lines 27-40 and then the load: invoke the bundler, fingerprint its
      inputs, overwrite the record, load. */
  function Rebuild(env: Env, w: World, name: string): (out: (World, Result<Option<Value>, Error>))
    ensures out.0.builds == w.builds + 1
    ensures out.1 != Ok(None)
    ensures out.1.Err? && out.1.error.MissingExport? ==>
              out.1.error == MissingExport(MissingExportMessage(EntryPoint(name)))
    ensures out.0.fs - {ArtifactPath(name), RecordPath(name)} == w.fs - {ArtifactPath(name), RecordPath(name)}
    ensures env.bundle(w.fs, EntryPoint(name)).Rejected? ==>
              out == (w.(builds := w.builds + 1), Err(BuildFailed(env.bundle(w.fs, EntryPoint(name)).message)))
    ensures var b := env.bundle(w.fs, EntryPoint(name));
            b.Built? ==>
              var fs1 := WithArtifact(w.fs, name, b.artifact);
              var hashed := HashInputs(fs1, env.digest, b.inputs);
              && (hashed.Err? ==> out == (w.(builds := w.builds + 1, fs := fs1), Err(hashed.error)))
              && (hashed.Ok? ==>
                    out == Finish(env, World(Written(fs1, env.codec, RecordPath(name), Version, hashed.value),
                                             w.builds + 1, w.modules), name))
  {
    var counted := w.(builds := w.builds + 1);
    match env.bundle(w.fs, EntryPoint(name))
    case Rejected(message) => (counted, Err(BuildFailed(message)))
    case Built(inputs, artifact) =>
      var fs1 := WithArtifact(w.fs, name, artifact);
      match HashInputs(fs1, env.digest, inputs)
      case Err(e) => (counted.(fs := fs1), Err(e))
      case Ok(entries) =>
        Finish(env, counted.(fs := Written(fs1, env.codec, RecordPath(name), Version, entries)), name)
  }

  /** `loadConfig(name)`: the world afterwards and the value returned
      (`None` for `undefined`) or the error thrown. */
  function LoadConfig(env: Env, w: World, name: string): (out: (World, Result<Option<Value>, Error>))
    ensures out.1 == Ok(None) <==> !Exists(w.fs, EntryPoint(name))
    ensures !Exists(w.fs, EntryPoint(name)) ==> out.0 == w
    ensures out.0.builds == if Exists(w.fs, EntryPoint(name)) && NeedsBuild(env, w.fs, name) == Ok(true)
                            then w.builds + 1 else w.builds
    ensures !(Exists(w.fs, EntryPoint(name)) && NeedsBuild(env, w.fs, name) == Ok(true)) ==> out.0.fs == w.fs
    ensures Exists(w.fs, EntryPoint(name)) && NeedsBuild(env, w.fs, name).Err? ==>
              out == (w, Err(NeedsBuild(env, w.fs, name).error))
    ensures out.0.fs - {ArtifactPath(name), RecordPath(name)} == w.fs - {ArtifactPath(name), RecordPath(name)}
    ensures out.1.Err? && out.1.error.MissingExport? ==>
              out.1.error == MissingExport(MissingExportMessage(EntryPoint(name)))
    ensures Exists(w.fs, EntryPoint(name)) && NeedsBuild(env, w.fs, name) == Ok(false) ==> out == Finish(env, w, name)
    ensures Exists(w.fs, EntryPoint(name)) && NeedsBuild(env, w.fs, name) == Ok(true) ==> out == Rebuild(env, w, name)
  {
    if !Exists(w.fs, EntryPoint(name)) then (w, Ok(None))
    else match NeedsBuild(env, w.fs, name)
      case Err(e) => (w, Err(e))
      case Ok(false) => Finish(env, w, name)
      case Ok(true) => Rebuild(env, w, name)
  }
}
