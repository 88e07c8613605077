/**
 The failures the configuration resolver can raise, and a failure-compatible
 result type so that `:-` propagates the first failure, as the source's
 exceptions abort the rest of the resolution.
 */
module Results {

  /** Every way resolution can stop. */
  datatype ConfigError =
    /** A mapping placeholder matched, but the entry's own name has no override (a KeyError). */
    | MissingOverride(key: string)
    /** A command-line key without the `--` prefix; carries the whole token list. */
    | MalformedArgument(tokens: seq<string>)
    /** No candidate document in the searched directory. */
    | NotFound(dir: string, candidates: seq<string>)
    /** The remote fetch collaborator could not produce a local directory. */
    | FetchFailed(id: string)
    /** The chosen path exists but is not a loadable file (it is a directory). */
    | Unreadable(path: string)
    /** A field was assigned on a document whose root is not a mapping. */
    | NotAMapping
    /** Classification asked for a document without a non-null `name`. */
    | MissingName
    /** `tools` is truthy but is not a mapping, so its items cannot be listed. */
    | ToolsNotMapping

  datatype Result<+T> = Ok(value: T) | Err(error: ConfigError) {

    predicate IsFailure() {
      Err?
    }

    function PropagateFailure<U>(): Result<U>
      requires Err?
    {
      Err(error)
    }

    function Extract(): T
      requires Ok?
    {
      value
    }
  }

  datatype Option<+T> = None | Some(value: T)
}
