/** What loadConfig promises across its steps and across calls: when the
    bundler runs, what the record holds after a rebuild, that a second call
    with nothing changed reuses the artifact, and where that fails as written. */
module LoaderProperties {
  import opened Base
  import opened Filesystem
  import opened JsonCache
  import opened ConfigLoader

  /** With the record readable and every recorded path the test reaches
      readable, the bundler runs exactly when no files are recorded or some
      recorded entry is missing, empty or re-hashes differently. */
  lemma BuildIffInvalid(env: Env, w: World, name: string)
    requires Exists(w.fs, EntryPoint(name))
    requires RecordedFiles(env, w.fs, name).Ok?
    requires RecordedFiles(env, w.fs, name).value.Some? ==>
               ReadsUntilStale(w.fs, env.digest, RecordedFiles(env, w.fs, name).value.value)
    ensures LoadConfig(env, w, name).0.builds == w.builds + 1 <==>
              || RecordedFiles(env, w.fs, name).value.None?
              || exists i :: 0 <= i < |RecordedFiles(env, w.fs, name).value.value| &&
                             !Fresh(w.fs, env.digest, RecordedFiles(env, w.fs, name).value.value[i])
  {
    var recorded := RecordedFiles(env, w.fs, name).value;
    if recorded.Some? {
      var files := recorded.value;
      ValidIffAllFresh(w.fs, env.digest, files);
      ReadableNeverThrows(w.fs, env.digest, files);
      var r := Stale(w.fs, env.digest, files);
      assert r == Ok(r.value);
    }
  }

  /** A rebuild that fails (the bundler rejects, or an input it reports
      cannot be read for fingerprinting) throws and leaves the record as it
      was; only the artifact may have been rewritten. */
  lemma FailedRebuildKeepsRecord(env: Env, w: World, name: string)
    requires Exists(w.fs, EntryPoint(name))
    requires NeedsBuild(env, w.fs, name) == Ok(true)
    requires match env.bundle(w.fs, EntryPoint(name))
             case Rejected(_) => true
             case Built(inputs, artifact) => HashInputs(WithArtifact(w.fs, name, artifact), env.digest, inputs).Err?
    ensures LoadConfig(env, w, name).1 ==
            match env.bundle(w.fs, EntryPoint(name))
            case Rejected(message) => Err(BuildFailed(message))
            case Built(inputs, artifact) => Err(HashInputs(WithArtifact(w.fs, name, artifact), env.digest, inputs).error)
    ensures LoadConfig(env, w, name).0.fs - {ArtifactPath(name)} == w.fs - {ArtifactPath(name)}
  {
  }

  /** Every input the bundler reports reads, once the artifact is written. */
  predicate InputsReadable(fs: Fs, name: string, inputs: seq<Path>, artifact: string) {
    forall i :: 0 <= i < |inputs| ==> ReadFile(WithArtifact(fs, name, artifact), inputs[i]).Contents?
  }

  /** After a rebuild whose inputs all read, the record holds exactly the
      reported inputs, in order, each with the digest of its content at
      write time, under the current version; the artifact is the new one. */
  lemma RebuildRecord(env: Env, w: World, name: string)
    requires Sound(env.codec)
    requires Exists(w.fs, EntryPoint(name))
    requires NeedsBuild(env, w.fs, name) == Ok(true)
    requires env.bundle(w.fs, EntryPoint(name)).Built?
    requires InputsReadable(w.fs, name, env.bundle(w.fs, EntryPoint(name)).inputs,
                            env.bundle(w.fs, EntryPoint(name)).artifact)
    ensures var b := env.bundle(w.fs, EntryPoint(name));
            var fs1 := WithArtifact(w.fs, name, b.artifact);
            var after := LoadConfig(env, w, name).0;
            var r := Read(after.fs, env.codec, RecordPath(name), Version);
            && after.builds == w.builds + 1
            && after.fs[ArtifactPath(name)] == File(b.artifact)
            && r.Ok? && r.value.Some?
            && r.value.value.version == NumberTag(Version)
            && r.value.value.files.Some?
            && |r.value.value.files.value| == |b.inputs|
            && forall i :: 0 <= i < |b.inputs| ==>
                 r.value.value.files.value[i] == Entry(b.inputs[i], env.digest(fs1[b.inputs[i]].content))
  {
  }

  /** The bundler resolves, and every input it reports is a non-empty
      readable file other than the record itself. */
  predicate BuildSettles(env: Env, fs: Fs, name: string) {
    match env.bundle(fs, EntryPoint(name))
    case Rejected(_) => false
    case Built(inputs, artifact) =>
      forall i :: 0 <= i < |inputs| ==>
        && inputs[i] != RecordPath(name)
        && ReadFile(WithArtifact(fs, name, artifact), inputs[i]).Contents?
        && ReadFile(WithArtifact(fs, name, artifact), inputs[i]).text != ""
  }

  /** Right after a successful rebuild the record is valid: every entry is
      fresh in the filesystem the rebuild left. */
  lemma RebuildLeavesValidRecord(env: Env, w: World, name: string)
    requires Sound(env.codec)
    requires Exists(w.fs, EntryPoint(name))
    requires NeedsBuild(env, w.fs, name) == Ok(true)
    requires BuildSettles(env, w.fs, name)
    ensures NeedsBuild(env, LoadConfig(env, w, name).0.fs, name) == Ok(false)
  {
    var b := env.bundle(w.fs, EntryPoint(name));
    var fs1 := WithArtifact(w.fs, name, b.artifact);
    var entries := HashInputs(fs1, env.digest, b.inputs).value;
    var fs2 := Written(fs1, env.codec, RecordPath(name), Version, entries);
    assert LoadConfig(env, w, name).0.fs == fs2;
    WriteThenRead(fs1, env.codec, RecordPath(name), Version, entries);
    assert RecordedFiles(env, fs2, name) == Ok(Some(entries));
    forall i | 0 <= i < |entries| ensures Fresh(fs2, env.digest, entries[i]) {
      assert b.inputs[i] != RecordPath(name);
      assert fs2[b.inputs[i]] == fs1[b.inputs[i]];
    }
    ValidIffAllFresh(fs2, env.digest, entries);
  }

  /** Two calls with no file change in between invoke the bundler at most
      once, and the second is a cache hit whenever the first reached the
      validity test without throwing. */
  lemma BuildsAtMostOnce(env: Env, w: World, name: string)
    requires Sound(env.codec)
    requires BuildSettles(env, w.fs, name)
    ensures var w1 := LoadConfig(env, w, name).0;
            LoadConfig(env, w1, name).0.builds <= w.builds + 1
    ensures Exists(w.fs, EntryPoint(name)) && NeedsBuild(env, w.fs, name).Ok? ==>
              NeedsBuild(env, LoadConfig(env, w, name).0.fs, name) == Ok(false)
  {
    if Exists(w.fs, EntryPoint(name)) && NeedsBuild(env, w.fs, name) == Ok(true) {
      RebuildLeavesValidRecord(env, w, name);
      PathsDistinct(name, name);
    }
  }

  /** As written, `!content` also treats an EMPTY tracked file as stale: a
      build whose inputs include an empty file (all inputs read) leaves a
      record that the very next call rejects, so every call rebuilds. */
  lemma EmptyInputRebuildsAgain(env: Env, w: World, name: string, k: nat)
    requires Sound(env.codec)
    requires Exists(w.fs, EntryPoint(name))
    requires NeedsBuild(env, w.fs, name) == Ok(true)
    requires env.bundle(w.fs, EntryPoint(name)).Built?
    requires var b := env.bundle(w.fs, EntryPoint(name));
             && InputsReadable(w.fs, name, b.inputs, b.artifact)
             && (forall i :: 0 <= i < |b.inputs| ==> b.inputs[i] != RecordPath(name))
             && k < |b.inputs|
             && ReadFile(WithArtifact(w.fs, name, b.artifact), b.inputs[k]).text == ""
    ensures var w1 := LoadConfig(env, w, name).0;
            LoadConfig(env, w1, name).0.builds == w.builds + 2
  {
    var b := env.bundle(w.fs, EntryPoint(name));
    var fs1 := WithArtifact(w.fs, name, b.artifact);
    var entries := HashInputs(fs1, env.digest, b.inputs).value;
    var fs2 := Written(fs1, env.codec, RecordPath(name), Version, entries);
    var w1 := LoadConfig(env, w, name).0;
    assert w1.fs == fs2;
    PathsDistinct(name, name);
    WriteThenRead(fs1, env.codec, RecordPath(name), Version, entries);
    assert RecordedFiles(env, fs2, name) == Ok(Some(entries));
    forall i | 0 <= i < |entries| ensures ReadMaybe(fs2, entries[i].path).Ok? {
      assert fs2[b.inputs[i]] == fs1[b.inputs[i]];
    }
    assert fs2[b.inputs[k]] == File("");
    SingleMismatchSuffices(fs2, env.digest, entries, k);
  }

  /** On a cache hit, what loadConfig returns is decided by the loaded
      export: a falsy one throws an error naming the entrypoint file, a
      factory's result is returned, and a truthy plain value is returned. */
  lemma HitResolvesExport(env: Env, w: World, name: string)
    requires Exists(w.fs, EntryPoint(name))
    requires NeedsBuild(env, w.fs, name) == Ok(false)
    requires Require(env.evaluate, w.modules, w.fs, ArtifactPath(name)).Ok?
    ensures var x := Require(env.evaluate, w.modules, w.fs, ArtifactPath(name)).value.1;
            var out := LoadConfig(env, w, name);
            && out.0.fs == w.fs && out.0.builds == w.builds
            && (!Present(x) ==> out.1 == Err(MissingExport(MissingExportMessage(EntryPoint(name)))))
            && (x.Factory? ==> out.1 == Ok(Some(x.result)))
            && (x.Plain? && Truthy(x.value) ==> out.1 == Ok(Some(x.value)))
  {
  }

  /** A tracked file whose read fails with anything other than ENOENT is
      not a cache miss: if the validity test reaches it, loadConfig throws
      that read error and changes nothing. */
  lemma TrackedReadErrorThrows(env: Env, w: World, name: string, k: nat)
    requires Exists(w.fs, EntryPoint(name))
    requires RecordedFiles(env, w.fs, name).Ok? && RecordedFiles(env, w.fs, name).value.Some?
    requires var files := RecordedFiles(env, w.fs, name).value.value;
             && k < |files|
             && (forall j :: 0 <= j < k ==> Fresh(w.fs, env.digest, files[j]))
             && ReadMaybe(w.fs, files[k].path).Err?
    ensures var files := RecordedFiles(env, w.fs, name).value.value;
            LoadConfig(env, w, name) == (w, Err(ReadMaybe(w.fs, files[k].path).error))
  {
    var files := RecordedFiles(env, w.fs, name).value.value;
    FirstNonFreshDecides(w.fs, env.digest, files, k);
  }

  /** On a cache miss whose build resolves and whose inputs all fingerprint,
      the artifact just written is loaded (it is not yet in the require
      cache) and its export decides the result: a falsy one throws an error
      naming the entrypoint file, a factory's result is returned, and a
      truthy plain value is returned. */
  lemma MissResolvesExport(env: Env, w: World, name: string)
    requires Exists(w.fs, EntryPoint(name))
    requires NeedsBuild(env, w.fs, name) == Ok(true)
    requires env.bundle(w.fs, EntryPoint(name)).Built?
    requires var b := env.bundle(w.fs, EntryPoint(name));
             HashInputs(WithArtifact(w.fs, name, b.artifact), env.digest, b.inputs).Ok?
    requires ArtifactPath(name) !in w.modules
    ensures var x := env.evaluate(env.bundle(w.fs, EntryPoint(name)).artifact);
            var out := LoadConfig(env, w, name);
            && out.0.builds == w.builds + 1
            && out.0.modules == w.modules[ArtifactPath(name) := x]
            && (!Present(x) ==> out.1 == Err(MissingExport(MissingExportMessage(EntryPoint(name)))))
            && (x.Factory? ==> out.1 == Ok(Some(x.result)))
            && (x.Plain? && Truthy(x.value) ==> out.1 == Ok(Some(x.value)))
  {
    PathsDistinct(name, name);
  }

  /** Node's require cache: once this process has loaded the artifact, the
      value returned comes from that first load, even after a rebuild has
      rewritten the artifact on disk. */
  lemma LoadedArtifactIsReused(env: Env, w: World, name: string)
    requires ArtifactPath(name) in w.modules
    ensures var out := LoadConfig(env, w, name);
            && out.0.modules == w.modules
            && (out.1.Ok? && out.1.value.Some? ==>
                  Resolve(EntryPoint(name), w.modules[ArtifactPath(name)]) == Ok(out.1.value.value))
  {
  }
}
