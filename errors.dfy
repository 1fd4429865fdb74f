/** Result-carrying datatypes and the codec's error kinds (src/error.rs).
    The source's error variants carry a formatted message; only the kind is kept here. */
module Errors {

  datatype Option<+T> = None | Some(value: T)

  datatype Result<+T, +E> = Ok(value: T) | Err(error: E)

  /** The kinds of `CompressError`. */
  datatype CompressError = Overflow | Unknown | NotEven | EncodeErr | DataNoSupported

  /** The kinds of `DecompressError`, plus two kinds for conditions on which the source
      panics instead of returning an error:
      - MalformedFlag: a sign bit or a metalength continuation flag that is neither 0 nor 1;
      - PayloadErr: the external byte decompressor rejects its input. */
  datatype DecompressError =
    | WrongBytesLength
    | BinariesToIntErr
    | Unknown
    | FromBytesErr
    | FromBinariesErr
    | MalformedFlag
    | PayloadErr
}
