/** Failure-compatible results, the errors of the library and its fixed-width integer types. */
module Wrappers {

  type u8 = x: int | 0 <= x < 0x100
  type u16 = x: int | 0 <= x < 0x1_0000
  type u32 = x: int | 0 <= x < 0x1_0000_0000
  type u64 = x: int | 0 <= x < 0x1_0000_0000_0000_0000
  type i8 = x: int | -0x80 <= x < 0x80
  type i16 = x: int | -0x8000 <= x < 0x8000
  type i32 = x: int | -0x8000_0000 <= x < 0x8000_0000

  const U16_MAX := 0xFFFF
  const U32_MAX := 0xFFFF_FFFF
  const U64_MAX := 0xFFFF_FFFF_FFFF_FFFF

  type byte = u8

  datatype Option<+T> = None | Some(value: T)

  datatype Result<+T> = Ok(value: T) | Err(error: Error) {
    predicate IsFailure() {
      Err?
    }

    function PropagateFailure<U>(): Result<U>
      requires Err?
    {
      Err(error)
    }

    function Extract(): T
      requires Ok?
    {
      value
    }
  }

  datatype Error =
    | ClosedWriter
    | HeaderContainsCrsVlr
    | HeaderTooLarge(size: nat)
    | InvalidClassification(code: int)
    | InvalidDirection(direction: int)
    | InvalidFileSignature
    | InvalidInverseTransform
    | InvalidPointFormat
    | InvalidPointFormatNumber(number: int)
    | InvalidReturnNumber(returnNumber: int)
    | InvalidScannerChannel(channel: int)
    | OffsetToEvlrsTooSmall(start: nat)
    | OffsetToPointDataTooLarge(offset: nat)
    | OffsetToPointDataTooSmall(offset: nat)
    | PointAttributesDoNotMatch
    | PointDataRecordLengthTooLarge(length: nat)
    | PointPaddingNotAllowed
    | StringTooLong(length: nat)
    | TooManyEvlrs(count: nat)
    | TooManyPoints(count: nat)
    | TooManyVlrs(count: nat)
    | UnexpectedEof
    | UnreadableWktCrs
    | UnsupportedFeature
    | UnsupportedFormat
    | VlrTooLong(length: nat)
}
