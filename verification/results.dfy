/** Failure-compatible wrappers shared by every module of the model, and the
    catalogue of error conditions the compiler can raise.  A Python exception
    becomes an `Err` carrying the kind of exception the source raises at that
    point; a caller that lets the exception propagate uses `:-`. */
module Results {

  /** An optional value; the source uses `None` for "absent". */
  datatype Option<+T> = None | Some(value: T) {
    predicate IsFailure() { None? }

    function PropagateFailure<U>(): Option<U>
      requires None?
    {
      None
    }

    function Extract(): T
      requires Some?
    {
      value
    }

    /** The value, or `default` when absent (the source's `dict.get(k, default)`). */
    function GetOr(default: T): (r: T)
      ensures Some? ==> r == value
      ensures None? ==> r == default
    {
      match this
      case Some(v) => v
      case None => default
    }
  }

  /** Where the code as written evidently misses its intent, a definition
      is given in both readings: `AsWritten` follows the code line by
      line, `AsIntended` is the behaviour its authors evidently meant. */
  datatype Version = AsWritten | AsIntended

  /** Why an operation failed: one constructor per exception the source raises. */
  datatype Error =
    | EdgeArity                  // Edge built with a node list whose length is not 2
    | UnknownProcess             // a process id missing from the catalogue
    | UnknownStrategy            // Graph.sort called with an unsupported strategy
    | UndefinedParameter         // a from_parameter reference no scope defines
    | UnsupportedSource          // a process / collection source of the wrong shape
    | MissingKey                 // KeyError
    | BadIndex                   // IndexError
    | BadType                    // TypeError / AttributeError on the wrong kind of value
    | UnboundName                // NameError raised by splicing an unquoted id as source text
    | UnevaluatedText            // spliced text Python evaluates as an expression the model does not evaluate
    | TooManyParents             // more than one parent along a link
    | TooManyChildren            // more than one child along a link
    | WrongFromNode              // a from_node reference no partner node answers to
    | MissingProcessGraph        // a document without a process_graph entry
    | NoResultNode               // a callback whose nodes carry no result flag
    | WrongFromArgument          // a from_argument reference outside any callback
    | LinkCountMismatch          // v0.4 ordering: links and index lists of different length
    | NotADocument               // translate called with something that is not a dictionary
    | Diverges                   // a lineage walk that would never stop (cyclic links)

  /** Either a value or the error that prevented computing it. */
  datatype Result<+T> = Ok(value: T) | Err(error: Error) {
    predicate IsFailure() { Err? }

    function PropagateFailure<U>(): Result<U>
      requires Err?
    {
      Err(error)
    }

    function Extract(): T
      requires Ok?
    {
      value
    }
  }
}
