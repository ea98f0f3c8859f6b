/** Fixed-width integers, error codes and results shared by every module. */
module Core {
  const U32_MAX: nat := 0xFFFF_FFFF
  const U64_MAX: nat := 0xFFFF_FFFF_FFFF_FFFF

  type uint8 = x: int | 0 <= x <= 0xFF
  type uint32 = x: int | 0 <= x <= 0xFFFF_FFFF
  type uint64 = x: int | 0 <= x <= 0xFFFF_FFFF_FFFF_FFFF

  datatype ErrorCode =
    | InvalidArgument
    | ArithmeticOverflow
    | InsufficientMemory
    | InsufficientResources
    | InvalidFormat
    | InvalidUtf8
    | InvalidJson
    | DuplicateKey
    | ResourceLimit
    | InvalidTensor
    | InvalidModel
    | InvalidShape

  datatype Result<+T> = Success(value: T) | Failure(error: ErrorCode)

  /** A `Status` of the C++ code: a result that carries no value. */
  type Status = Result<()>

  const OK: Status := Success(())

  datatype Option<+T> = None | Some(value: T)
}
