/** The generator's only error channel: every failure ends the run with a
    diagnostic (`log.Fatal`) or a runtime panic. Both are modelled as a `Fatal`
    result carrying what went wrong; no output is produced after one. */
module Faults {

  datatype Fault =
    /** The recipe parser rejected the recipe at this path. */
    | RecipeUnparsable(path: seq<string>)
    /** `reference.Parse` rejected the argument of a `from` directive. */
    | BadReference(arg: string)
    /** A directive lacked the argument the extractor reads (a nil `Next`). */
    | MissingArgument(directive: string)
    /** A local base image whose name does not start with the registry URL. */
    | RegistryMismatch(reference: string, url: string)
    /** The base image "doesn't parse as a named Docker reference". */
    | NotNamed(reference: string)
    /** A record without any `from` directive asked for its base image. */
    | NoBaseImage
    /** A staged path that names nothing in the file tree. */
    | MissingPath(path: seq<string>)
    /** A staged path that climbs above the scan root. */
    | OutsideRoot(recipe: string, staged: string)

  datatype Option<+T> = None | Some(value: T)

  datatype Result<+T> = Ok(value: T) | Fatal(fault: Fault) {

    predicate IsFailure() {
      Fatal?
    }

    function PropagateFailure<U>(): Result<U>
      requires Fatal?
    {
      Fatal(fault)
    }

    function Extract(): T
      requires Ok?
    {
      value
    }
  }
}
