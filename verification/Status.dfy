/** Status codes of the library and a result that carries either a value or a failing status. */
module Status {

  datatype Status =
    | Ok
    | InvalidArgument
    | InvalidState
    | NullValue
    | OutOfRange
    | Inexact
    | LimitExceeded
    | AllocFail
    | BufferTooSmall
    | ProtoError
    | IoError
    | Eof

  datatype Result<+T> = Good(value: T) | Bad(status: Status) {
    function Code(): Status {
      if Good? then Ok else status
    }
  }

  type byte = b: int | 0 <= b < 256

  const INT32_MIN: int := -0x8000_0000
  const INT32_MAX: int := 0x7FFF_FFFF
  const INT64_MIN: int := -0x8000_0000_0000_0000
  const INT64_MAX: int := 0x7FFF_FFFF_FFFF_FFFF
  const UINT64_MAX: int := 0xFFFF_FFFF_FFFF_FFFF

  predicate IsInt32(x: int) {
    INT32_MIN <= x <= INT32_MAX
  }
}
