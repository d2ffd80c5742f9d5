# config-loader: the cache-validity protocol of `loadConfig`

This project models `loadConfig(name)` from `src/index.ts` of config-loader and proves properties of it in Dafny.
`loadConfig` loads `<name>.config.ts`. It bundles the file into `node_modules/.<name>/config.js` with esbuild, and it skips the bundler when a fingerprint record says nothing has changed.
The record is `node_modules/.<name>/config-hashes.json`. It maps every input of the last build to a digest of that input's content.

The model has five modules:

- `Base` (base.dfy): paths, `Option`, `Result`, and the errors `loadConfig` can throw.
- `Filesystem` (filesystem.dfy): the filesystem as a map from path to node. A missing key means ENOENT. A node is a readable `File` or an `Unreadable` path that carries its error code. The module has `existsSync`, `readFileSync` and `readMaybeFileSync`.
- `JsonCache` (json_cache.dfy): `jsonCache(path, version)`. `read` and `write` are built over an abstract JSON codec. `Sound(codec)` is the one assumption: parse undoes stringify, and stringify never gives empty text.
- `ConfigLoader` (config_loader.dfy): the pure parts. These are the path derivation, the validity test (`files.some(...)`), the fingerprinting of build inputs, and export resolution. `LoadConfig` is a function from a `World` to the world afterwards plus the returned value or thrown error. A `World` is the files, a counter of bundler invocations, and Node's `require` cache.
- `LoaderProperties` (loader_properties.dfy): properties spanning several steps or several calls.
- `Runtime` (runtime.dfy): class `Process`. Its fields are the files, the build counter and the require cache. Its methods update them step by step as the source does. `Process.LoadConfig` is proved equal to `ConfigLoader.LoadConfig`.

Collaborators are parameters, gathered in `Env`:
- `digest` is `getHash`.
- `codec` is JSON.parse/JSON.stringify.
- `bundle` is `esbuild.build`. It is an oracle over the current files. It either resolves with the ordered input paths plus the artifact text, or it rejects.
- `evaluate` stands for executing the artifact under `require` and reading its `config` export.

The model follows the code as written. In particular:
- Bundler diagnostics are only logged (src/index.ts:34). A resolved build goes on to fingerprint its inputs and write the record. A rejected build promise throws, and so does an input that cannot be read for fingerprinting (src/index.ts:38); neither writes the record.
- A tracked file whose read fails with anything other than ENOENT makes `loadConfig` throw that error when the validity test reaches it. It is not a cache miss, because `readMaybeFileSync` re-throws (`TrackedReadErrorThrows`). A malformed record also throws.
- The artifact is loaded with plain `require`, which caches by path. Within one process, a rebuilt artifact is not reloaded (`LoadedArtifactIsReused`).
- `loadConfig` returns the configuration alone, not `{config, files}`.
- `!content` in the validity test also treats an empty tracked file as stale. A build with an empty input therefore rebuilds on every call (`EmptyInputRebuildsAgain`).

## Model

| member | source | states |
|---|---|---|
| Filesystem.ReadFile | src/index.ts:101 | readFileSync yields the content exactly for a readable file; a missing path fails with ENOENT |
| Filesystem.Exists | src/index.ts:14 | a path that does not exist reads as ENOENT; a readable file exists |
| Filesystem.ReadMaybe | src/index.ts:99-106 | absent exactly when the read fails with ENOENT; content when the read succeeds; every other read error propagated with its code unchanged |
| JsonCache.Read | src/index.ts:57-63 | absent when the file is missing, empty, or carries a version not strictly equal to the expected one (even with well-formed files); a record is returned exactly when the text parses to a record of the expected version, and it is that record; a read error other than ENOENT is re-thrown unchanged; malformed text throws a SyntaxError and the JSON literal `null` a TypeError, both naming the record's path |
| JsonCache.Written | src/index.ts:64 | write replaces the whole file at the record path with the serialised `{version, files}` and leaves every other path unchanged |
| JsonCache.WriteThenRead | src/index.ts:57-64 | round trip: after write, read with the same version returns exactly the written files, whatever the file held before |
| JsonCache.WriteThenReadOtherVersion | src/index.ts:57-64 | a record written under one version is discarded (read returns absent) by a reader expecting another |
| ConfigLoader.EntryPoint | src/index.ts:11 | the entrypoint is the name followed by `.config.ts` |
| ConfigLoader.CacheDir | src/index.ts:12 | the cache directory is `node_modules/.` followed by the name |
| ConfigLoader.ArtifactPath | src/index.ts:13 | the artifact is `config.js` inside the cache directory |
| ConfigLoader.RecordPath | src/index.ts:16 | the record is `config-hashes.json` inside the cache directory |
| ConfigLoader.PathsDistinct | src/index.ts:11-16 | entrypoint, artifact and record paths never coincide, for any names; each derivation is injective, so no two entrypoints share a cache |
| ConfigLoader.Stale | src/index.ts:22-25 | the validity test throws only a read error of one of the recorded paths |
| ConfigLoader.ValidIffAllFresh | src/index.ts:20-25 | the record is trusted exactly when every recorded path reads, is non-empty, and hashes to its recorded digest |
| ConfigLoader.ReadableNeverThrows | src/index.ts:22-25 | the validity test yields a verdict rather than an exception exactly when every entry it reaches (every entry whose predecessors are all fresh) reads or is missing |
| ConfigLoader.FirstNonFreshDecides | src/index.ts:22-25 | `some` short-circuits: the first non-fresh entry decides stale, or throws its own read error; later entries are never read |
| ConfigLoader.SingleMismatchSuffices | src/index.ts:20-26 | all-or-nothing: one missing, empty or mismatching entry invalidates the whole record, provided no entry up to it throws on read |
| ConfigLoader.DeletedFileInvalidates | src/index.ts:22-24 | deleting any tracked file makes the record stale, provided no entry up to it throws on read |
| ConfigLoader.ModifiedFileInvalidates | src/index.ts:22-24 | rewriting a tracked file with content of a different digest makes the record stale, provided no entry up to it throws on read |
| ConfigLoader.HashInputs | src/index.ts:36-39 | succeeds exactly when every input reads (ENOENT included as a failure); the result pairs each input, in order, with the digest of its content; on failure the error is the first failing input's |
| ConfigLoader.Resolve | src/index.ts:47-50 | throws exactly when the export is not truthy, with a message that starts with the entrypoint file name; a factory's result is returned; a truthy plain value is returned as is |
| ConfigLoader.Require | src/index.ts:44-46 | a module already loaded is returned from the cache unchanged; otherwise it succeeds exactly when the artifact reads, returns its evaluated export, and caches it |
| ConfigLoader.Finish | src/index.ts:43-50 | loading changes neither the files nor the build count and never yields the missing-entrypoint result; a require error is thrown with nothing else changed; otherwise the require cache is the one `Require` leaves, a falsy export throws an error naming the entrypoint file, a factory's result is returned and a truthy plain value is returned as is |
| ConfigLoader.Rebuild | src/index.ts:27-50 | a rebuild invokes the bundler exactly once, never yields the missing-entrypoint result and changes no file but the artifact and the record; a rejected build throws `BuildFailed` with its message and writes nothing; an input that cannot be read throws that read error after the artifact was written, leaving the record; otherwise the record is written with the fingerprints and the artifact is loaded and resolved as `Finish` states |
| ConfigLoader.NeedsBuild | src/index.ts:20-26 | the cache is a hit exactly when a record of the current version lists files and every one is fresh; no record means a build; an error reading the record is thrown as is; with files recorded, the verdict or the read error is that of the validity test `Stale` |
| ConfigLoader.RecordedFiles | src/index.ts:19 | the recorded files are absent exactly when read returns nothing or a record without `files`; present files come from a record of the current version; the error `read` throws is thrown unchanged |
| ConfigLoader.LoadConfig | src/index.ts:8-51 | yields the missing-entrypoint result exactly when the entrypoint is missing, and then changes nothing; the bundler runs exactly when the entrypoint exists and the record is absent or stale; otherwise the files are untouched; an error in the validity test is thrown with nothing changed; no file but the artifact and the record ever changes; a missing-export error names the entrypoint file; a hit loads as `Finish` states and a miss rebuilds as `Rebuild` states |
| LoaderProperties.BuildIffInvalid | src/index.ts:19-26 | with the record readable and every tracked file the test reaches readable, the build runs exactly when no files are recorded or some recorded entry is missing, empty or re-hashes differently |
| LoaderProperties.FailedRebuildKeepsRecord | src/index.ts:27-40 | a rejected build makes loadConfig throw `BuildFailed` with the bundler's message, an input that cannot be read for fingerprinting makes it throw that read error, and either way the record is left untouched |
| LoaderProperties.RebuildRecord | src/index.ts:27-40 | after a rebuild, read returns a record of the current version holding exactly the bundler's inputs, in the reported order, each with the digest of its content at write time; the artifact is the new one |
| LoaderProperties.RebuildLeavesValidRecord | src/index.ts:20-40 | right after a successful rebuild whose inputs are non-empty and are not the record itself, the record is valid |
| LoaderProperties.BuildsAtMostOnce | src/index.ts:14-41 | two calls with no file change in between invoke the bundler at most once; the second call is a cache hit |
| LoaderProperties.EmptyInputRebuildsAgain | src/index.ts:22-40 | as written, a build input with empty content makes the next call rebuild again |
| LoaderProperties.HitResolvesExport | src/index.ts:43-50 | on a cache hit with a loadable artifact nothing is written or built, a falsy export throws an error naming the entrypoint file, a factory's result is returned, and a truthy plain value is returned as is |
| LoaderProperties.TrackedReadErrorThrows | src/index.ts:19-25 | when the validity test reaches a tracked file whose read fails with an error other than ENOENT, loadConfig throws that error and changes nothing |
| LoaderProperties.MissResolvesExport | src/index.ts:27-50 | on a miss whose build resolves and whose inputs fingerprint, the new artifact is loaded into the require cache and its export decides: falsy throws naming the entrypoint, a factory's result is returned, a truthy plain value is returned |
| LoaderProperties.LoadedArtifactIsReused | src/index.ts:44-50 | once the artifact is in the require cache, the value returned comes from that first load, even after a rebuild |
| Runtime.Process.AnyStale | src/index.ts:22-25 | the loop over the recorded entries returns the verdict (or error) of the validity test |
| Runtime.Process.HashAll | src/index.ts:36-39 | the loop over the build's inputs returns exactly the fingerprints of `HashInputs`, or its error |
| Runtime.Process.WriteRecord | src/index.ts:64 | the files become those after `write`; the counter and the require cache are unchanged |
| Runtime.Process.Bundle | src/index.ts:27-33 | counts one invocation and writes the artifact when the bundler resolves, returning its outcome |
| Runtime.Process.Require | src/index.ts:44-46 | returns what `Require` specifies and updates the require cache accordingly; files and counter unchanged |
| Runtime.Process.LoadConfig | src/index.ts:8-51 | the new state and the result are exactly those of `ConfigLoader.LoadConfig` on the old state |

## Left out

- JSON text: `JSON.parse` and `JSON.stringify` are the abstract `Codec`. The round-trip lemmas assume `Sound(codec)`.
- The `files` property: a falsy `files` (missing, `null`, `0`, `""`, `false`) reads as absent and leads to a rebuild, as `!files` at src/index.ts:21 does; the codec maps it to `None`. Other values that are not lists of path/hash pairs (a non-array, or elements such as the string `"ab"` that destructure to a path and a hash) are not modelled.
- JsonCache.Written: `writeFileSync` at src/index.ts:64 can throw (a read-only record file, a full disk). The model's write always succeeds. As written, such a failure throws after the bundler ran and rewrote the artifact, and leaves the old record in place.
- `getHash`: SHA-1 truncated to 8 hex digits is the uninterpreted `digest`. Collisions are possible. A change whose digest collides is not detected, in the model as in the source.
- Hashing text versus bytes: line 24 hashes the UTF-8 string and line 38 hashes the raw Buffer. The model hashes the same text in both places, so content that is not valid UTF-8 is not modelled.
- esbuild internals: bundling, metafile production and diagnostics. `logEsbuildErrors`, `formatMessagesSync`, `console.log` and `useColors` (src/index.ts:67-87) are presentation only.
- `path.join` normalisation and `process.cwd()`: paths are plain concatenations. The require cache is keyed by the artifact path.
- ConfigLoader.PathsDistinct: its injectivity holds of the concatenated paths only. The source builds the cache paths with `path.join`, which normalises them: the names `""` and `"/"` both give `node_modules/config.js`, and `"x/../y"` and `"/y"` share `node_modules/y/`. For names without `/` that are neither empty nor `.`, `join` changes nothing and the lemma applies as stated.
- A `config` factory whose promise resolves to `undefined` makes `loadConfig` return `undefined` although the entrypoint exists. The model keeps this apart from the missing-entrypoint result (`Some(Undefined)` versus `None`), which JavaScript cannot do.
- `existsSync` is taken to be true for every path present in the map. A dangling symbolic link is not modelled.
- Truthiness: NaN and -0 are not modelled, and numbers are integers.
- Exceptions thrown while evaluating the artifact, or by the `config` factory or its promise, are not modelled. A factory is given by the value its promise resolves to.
- `async`/`await`: calls are sequential, and concurrent calls for one name (racing rebuilds) are not modelled.
- scripts/bundle.ts is a packaging script with no logic and is not part of this model.
- LoaderProperties.BuildsAtMostOnce: holds only when the bundler resolves and every input it reports is a non-empty readable file other than the record. As written, a rejected build, an unreadable input or an empty input makes the next call rebuild again (`FailedRebuildKeepsRecord`, `EmptyInputRebuildsAgain`).
