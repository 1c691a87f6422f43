/** Types shared by the whole codec: bytes, the caller-owned byte buffer,
    optional values and the error constants of the multihash decoder. */
module Defs {

  /** An `unsigned char`. */
  type byte = x: int | 0 <= x < 256

  datatype Option<+T> = None | Some(value: T)

  /** The errors the decoder reports. The header's string constants become
      one constructor each; `errTooLong` and `errInvalidInput` are declared
      there but no code path returns them, so they are not constructors. */
  datatype Error =
    | UnknownHashCode
    | TooShort
    | VarIntBufferTooShort
    | VarIntTooLong
    | InconsistentLength

  datatype Result<+T> = Ok(value: T) | Err(error: Error)

  /** A `std::vector<unsigned char>` that a callee receives by reference
      (`Bytes &buf`) and may replace with a shorter one. */
  class ByteBuf {
    var data: seq<byte>

    constructor (init: seq<byte>)
      ensures data == init
    {
      data := init;
    }
  }
}
