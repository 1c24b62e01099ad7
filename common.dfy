/** Shared vocabulary of the twinkly client model: failure-compatible
    wrappers, the byte type of the wire format and the device status codes. */
module Common {

  datatype Option<T> = None | Some(value: T)

  datatype Result<T, E> = Ok(value: T) | Err(error: E)

  /** Go's uint8: one channel of an LED, one byte of the movie buffer. */
  newtype uint8 = x: int | 0 <= x < 0x100

  /** Status codes the device puts in the "code" field of its replies (consts.go). */
  type Code = int

  const CodeOk: Code := 1000
  const CodeError: Code := 1001
  const CodeInvalidArgumentValue: Code := 1101
  const CodeInvalidArgumentKey: Code := 1105
  const CodeDuplicateUniqueId: Code := 1106
}
