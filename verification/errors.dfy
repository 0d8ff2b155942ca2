/** The parse-time structural errors (the `ArgumentException` family) and the
    setup-time failures (the unchecked exceptions thrown to the programmer). */
module Errors {

  /** One structural error found while parsing. Each constructor stands for one
      exception class; the fields are what the exception carries. */
  datatype ArgError =
    | UnknownOption(name: string)
    | AmbiguousOptionName(name: string)
    | LateOption(name: string)
    | MissingOption(name: string)
    | TooManyOccurrence(name: string, names: seq<string>)
    | UnexpectedArgument(name: string)
    | ArgumentRequired(name: string)
      /** reported by the operand matcher, which is not part of this model */
    | OperandMismatch(pattern: string, count: nat)

  /** An exception class a caller can filter on. `AnyError` is the common base
      class, of which every structural error is an instance. */
  datatype ErrorKind =
    | AnyError
    | UnknownOptionKind
    | AmbiguousOptionNameKind
    | LateOptionKind
    | MissingOptionKind
    | TooManyOccurrenceKind
    | UnexpectedArgumentKind
    | ArgumentRequiredKind
    | OperandKind

  /** `kind.isInstance(e)` */
  predicate IsKind(e: ArgError, kind: ErrorKind) {
    match kind
    case AnyError => true
    case UnknownOptionKind => e.UnknownOption?
    case AmbiguousOptionNameKind => e.AmbiguousOptionName?
    case LateOptionKind => e.LateOption?
    case MissingOptionKind => e.MissingOption?
    case TooManyOccurrenceKind => e.TooManyOccurrence?
    case UnexpectedArgumentKind => e.UnexpectedArgument?
    case ArgumentRequiredKind => e.ArgumentRequired?
    case OperandKind => e.OperandMismatch?
  }

  /** Exceptions thrown at setup time or on a bad parse range. */
  datatype SetupError =
    | NullName                          // NullPointerException from the option constructor
    | InvalidOption(option: string)     // IllegalArgumentException from syntax validation
    | DuplicateName(name: string)       // IllegalArgumentException: duplicate option name
    | OffsetOutOfBounds(index: int)     // ArrayIndexOutOfBoundsException(offset)
    | NegativeLength(length: int)       // IllegalArgumentException(length)
    | EndOutOfBounds(index: int)        // ArrayIndexOutOfBoundsException(offset + length)
    | UnknownOperandName(name: string)  // IllegalArgumentException: operand name not in pattern
}
