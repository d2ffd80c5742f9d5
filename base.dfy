/** Shared vocabulary: paths, optional values, results and the errors that
    `loadConfig` can throw. */
module Base {

  /** A filesystem path, relative to the process's working directory. */
  type Path = string

  /** JavaScript's `undefined` versus a present value. */
  datatype Option<+T> = None | Some(value: T)

  /** A value, or the exception thrown instead of producing it. */
  datatype Result<+T, +E> = Ok(value: T) | Err(error: E)

  /** The exceptions that reach the caller of `loadConfig`. */
  datatype Error =
    | IoError(path: Path, code: string)   // readFileSync failed; `code` is the error's code, e.g. "EACCES"
    | SyntaxError(path: Path)             // JSON.parse rejected the hash record
    | TypeError(path: Path)               // the hash record is the JSON literal `null`, so `.version` throws
    | BuildFailed(message: string)        // the bundler's promise rejected
    | ModuleNotFound(path: Path)          // require found no artifact
    | MissingExport(message: string)      // the artifact has no truthy `config` export
}
