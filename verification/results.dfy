/**
 The error kinds the value codecs raise, and the Result/Option types that
 carry them instead of exceptions.
 */
module Results {

  datatype Error =
    /** BOOLEAN content that is not exactly one octet */
    | MalformedLength
    /** BOOLEAN octet other than 0x00 / 0xFF under DER */
    | InvalidValue(octet: int)
    /** character outside the PrintableString alphabet */
    | InvalidCharacter(ch: char)
    /** a name given to an INTEGER that has no enumeration */
    | NoEnumeration
    /** a name that is not a key of the enumeration */
    | UnknownEnumValue(name: string)
    /** an integer that is not a code of the enumeration */
    | ValueNotInEnumeration(code: int)
    /** an enumeration default that names no entry */
    | UnknownEnumDefault
    /** a value of a kind the INTEGER type cannot hold or encode */
    | UnsupportedValueType
    /** a default of a kind the INTEGER type cannot hold */
    | UnsupportedDefaultType

  datatype Result<+T> = Ok(value: T) | Err(error: Error) {

    predicate IsFailure() {
      Err?
    }

    function PropagateFailure<U>(): Result<U>
      requires Err?
    {
      Err(error)
    }

    function Extract(): T
      requires Ok?
    {
      value
    }
  }

  /** A Ruby value that may be nil. */
  datatype Option<+T> = None | Some(value: T)
}
