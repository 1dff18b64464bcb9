/** The octet type, the failure kinds of the ABC method-body decoder and the result type that carries them. */
module Common {

  /** An octet of the bytecode stream. */
  newtype byte = b: int | 0 <= b < 0x100

  /** Every way decoding, registration or branch resolution can fail. */
  datatype DecodeError =
    | UnknownOpcode(code: byte)          // the byte names no registered opcode
    | TruncatedStream                    // too few bytes left for a fixed-width field
    | InvalidVarint                      // a malformed or over-long variable-length integer
    | JumpTargetOutOfRange(target: int)  // a branch lands outside every instruction start
    | DuplicateOpcode(code: byte)        // two opcode specifications claim one byte

  datatype Option<+T> = None | Some(value: T)

  datatype Result<+T> = Ok(value: T) | Err(error: DecodeError)
}
