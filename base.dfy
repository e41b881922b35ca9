/** Types shared by every part of the .blend patcher: bytes, the failure
    wrappers that replace the script's `die`, and the errors it can report. */
module Base {

  /** One byte of the file buffer (a Node `Buffer` element). */
  newtype byte = b: int | 0 <= b < 256

  datatype Result<+T, +E> = Success(value: T) | Failure(error: E)

  datatype Outcome<+E> = Pass | Fail(error: E)

  /** Every reason the script calls `die`. */
  datatype Error =
    | UnsupportedEndianness(endian: byte)
    | NotBlenderFile
    | UnexpectedModifierName(sdnaIndex: int, expectedName: string, actualName: string)
    | UnexpectedEnumType(sdnaIndex: int, expectedType: int, actualType: int)
}
