/** Shared value types of the importer: bytes, optional values, the errors
    that `importer.rs` returns through `Result`, and the panics it raises
    through `expect` and slice indexing. */
module Outcome {

  /** A Rust `u8`. */
  type byte = b: int | 0 <= b < 256

  datatype Option<+T> = None | Some(value: T)

  /** The errors that reach the caller as `Err(amethyst::error::Error)`. */
  datatype Error =
    | NotFound(key: string)      // the asset source has nothing under this key
    | InvalidBase64              // `base64::decode` rejected a data-URI payload
    | External(message: string)  // a failure reported by the glTF or GLB parser
    | FromString(text: string)   // `Error::from_string`, used for length mismatches

  /** The reasons the importer aborts instead of returning an error. */
  datatype PanicReason =
    | UriWithoutComma    // `expect("URI does not contain ','")`
    | BinUnavailable     // `expect("`BIN` section ... is empty or used by another buffer")`
    | SliceOutOfRange    // `&data[begin..end]` with `end` past the buffer

  /** The outcome of a fallible step: a value, an `Err` propagated by `?`,
      or a panic that unwinds through every caller. `:-` plays the part of `?`. */
  datatype Outcome<+T> = Ok(value: T) | Err(error: Error) | Panic(reason: PanicReason) {

    predicate IsFailure() {
      !Ok?
    }

    function PropagateFailure<U>(): (r: Outcome<U>)
      requires !Ok?
      ensures Err? ==> r == Err(error)
      ensures Panic? ==> r == Panic(reason)
    {
      match this
      case Err(e) => Err(e)
      case Panic(p) => Panic(p)
    }

    function Extract(): T
      requires Ok?
    {
      value
    }
  }
}
