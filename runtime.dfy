/** The process that calls `loadConfig`: the files it sees, a counter of
    bundler invocations, and Node's require cache, changed step by step as
    src/index.ts does. Each method is proved against the function of
    ConfigLoader that specifies it. */
module Runtime {
  import opened Base
  import opened Filesystem
  import opened JsonCache
  import opened ConfigLoader

  class Process {
    const env: Env
    var fs: Fs
    var builds: nat
    var modules: map<Path, Export>

    /** The abstract state the specification functions act on. */
    function State(): World
      reads this
    {
      World(fs, builds, modules)
    }

    constructor (env: Env, fs: Fs)
      ensures this.env == env
      ensures State() == World(fs, 0, map[])
    {
      this.env := env;
      this.fs := fs;
      this.builds := 0;
      this.modules := map[];
    }

    /** `files.some(([path, hash]) => ...)`: walks the recorded entries,
        stopping at the first stale one or the first read error. */
    method AnyStale(files: seq<Entry>) returns (r: Result<bool, Error>)
      ensures r == Stale(fs, env.digest, files)
    {
      var i := 0;
      while i < |files|
        invariant 0 <= i <= |files|
        invariant Stale(fs, env.digest, files) == Stale(fs, env.digest, files[i..])
      {
        assert files[i..][1..] == files[i + 1..];
        var content := ReadMaybe(fs, files[i].path);
        if content.Err? {
          return Err(content.error);
        }
        if content.value.None? || content.value.value == "" || env.digest(content.value.value) != files[i].hash {
          return Ok(true);
        }
        i := i + 1;
      }
      assert files[i..] == [];
      return Ok(false);
    }

    /** `.map((path) => [path, getHash(readFileSync(path))])`: fingerprints
        the inputs in order; the first failing read throws. */
    method HashAll(paths: seq<Path>) returns (r: Result<seq<Entry>, Error>)
      ensures r == HashInputs(fs, env.digest, paths)
    {
      var entries: seq<Entry> := [];
      var i := 0;
      while i < |paths|
        invariant 0 <= i <= |paths|
        invariant |entries| == i
        invariant forall j :: 0 <= j < i ==>
                    ReadFile(fs, paths[j]).Contents? &&
                    entries[j] == Entry(paths[j], env.digest(ReadFile(fs, paths[j]).text))
      {
        var read := ReadFile(fs, paths[i]);
        if read.Failed? {
          return Err(IoError(paths[i], read.code));
        }
        entries := entries + [Entry(paths[i], env.digest(read.text))];
        i := i + 1;
      }
      var spec := HashInputs(fs, env.digest, paths);
      assert spec.Ok? && |spec.value| == |entries|;
      assert spec.value == entries;
      return Ok(entries);
    }

    /** `cache.write({files})` of `jsonCache(path, version)`: the record
        file is replaced as a whole. */
    method WriteRecord(path: Path, version: int, files: seq<Entry>)
      modifies this
      ensures fs == Written(old(fs), env.codec, path, version, files)
      ensures builds == old(builds) && modules == old(modules)
    {
      fs := fs[path := File(env.codec.stringify(version, files))];
    }

    /** `await build({entryPoints: [entryPoint], outfile: output, ...})`:
        counts the invocation and, when the bundler resolves, writes the
        artifact. */
    method Bundle(name: string) returns (b: Build)
      modifies this
      ensures b == env.bundle(old(fs), EntryPoint(name))
      ensures builds == old(builds) + 1 && modules == old(modules)
      ensures fs == if b.Built? then WithArtifact(old(fs), name, b.artifact) else old(fs)
    {
      builds := builds + 1;
      b := env.bundle(fs, EntryPoint(name));
      if b.Built? {
        fs := fs[ArtifactPath(name) := File(b.artifact)];
      }
    }

    /** `require(p)`: the cached module if this process loaded it before,
        otherwise the artifact read from disk, evaluated and cached. */
    method Require(p: Path) returns (r: Result<Export, Error>)
      modifies this
      ensures var loaded := ConfigLoader.Require(env.evaluate, old(modules), old(fs), p);
              && (loaded.Err? ==> r == Err(loaded.error) && modules == old(modules))
              && (loaded.Ok? ==> r == Ok(loaded.value.1) && modules == loaded.value.0)
      ensures fs == old(fs) && builds == old(builds)
    {
      if p in modules {
        return Ok(modules[p]);
      }
      var read := ReadFile(fs, p);
      if read.Failed? {
        if read.code == ENOENT {
          return Err(ModuleNotFound(p));
        }
        return Err(IoError(p, read.code));
      }
      var x := env.evaluate(read.text);
      modules := modules[p := x];
      return Ok(x);
    }

    /** `loadConfig(name)`, step by step. */
    method LoadConfig(name: string) returns (r: Result<Option<Value>, Error>)
      modifies this
      ensures (State(), r) == ConfigLoader.LoadConfig(env, old(State()), name)
    {
      var entryPoint := EntryPoint(name);
      if !Exists(fs, entryPoint) {
        return Ok(None);
      }
      var rebuild: bool;
      match RecordedFiles(env, fs, name) {
        case Err(e) =>
          return Err(e);
        case Ok(None) =>
          rebuild := true;
        case Ok(Some(files)) =>
          var stale := AnyStale(files);
          if stale.Err? {
            return Err(stale.error);
          }
          rebuild := stale.value;
      }
      assert NeedsBuild(env, fs, name) == Ok(rebuild);
      if rebuild {
        var b := Bundle(name);
        if b.Rejected? {
          return Err(BuildFailed(b.message));
        }
        var entries := HashAll(b.inputs);
        if entries.Err? {
          return Err(entries.error);
        }
        WriteRecord(RecordPath(name), Version, entries.value);
      }
      var x := Require(ArtifactPath(name));
      if x.Err? {
        return Err(x.error);
      }
      match Resolve(entryPoint, x.value) {
        case Err(e) => r := Err(e);
        case Ok(v) => r := Ok(Some(v));
      }
    }
  }
}
