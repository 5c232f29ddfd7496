/**
 * Errors of the engine: a kind (the `Error*` constructor that produced it) and
 * the location path that `errors.Wrap` builds as the error travels back up the
 * recursion, outermost segment first. Message text is not modelled.
 */
module ConfigErrors {
  import opened Values

  /** The primitive type names listed by an InvalidPrimitiveType error. */
  datatype PrimitiveType = PrimInt | PrimFloat | PrimString | PrimBool | PrimMap | PrimList | PrimStringList

  datatype ErrorKind =
    | InvalidValueDataType
    | InvalidColumnInputType
    | TypeListLength
    | GenericTypeMapLength
    | ArgNameCannotBeType(name: string)
    | InvalidPrimitiveType(accepted: seq<PrimitiveType>)
    | CannotBeNull
    | MustBeDefined
    | MapMustBeDefined(keys: set<string>)
    | UnsupportedKey(key: Value)
    | MustBeEmpty
    | UnsupportedDataType
    | UnsupportedColumnType
    | InvalidColumnRuntimeType

  /** A path segment: a map key or field name, or a list index. */
  datatype Segment = Key(key: Value) | Index(index: nat)

  datatype Error = Error(kind: ErrorKind, path: seq<Segment>)
  {
    /** errors.Wrap(err, seg): the segment becomes the outermost step of the path. */
    function Wrap(seg: Segment): Error
    {
      Error(kind, [seg] + path)
    }
  }

  /** An error raised at the current position, before any wrapping. */
  function Raise(kind: ErrorKind): Error
  {
    Error(kind, [])
  }

  /** The segment for a named argument or column. */
  function Name(name: string): Segment
  {
    Key(Str(name))
  }

  /** The `error` return of a check: nil, or an error. */
  datatype Outcome = Pass | Fail(error: Error)

  /** The `(value, error)` return of a cast. */
  datatype Result<T> = Ok(value: T) | Err(error: Error)

}
