/** Shared value types of the containers and the Huffman coder: the 8-bit
    character, the faults that the debug builds throw, and the wrappers that
    carry either a value or such a fault. */
module Base {

  /** A C++ `char` as the MSVC compiler the library targets treats it:
      a signed 8-bit integer. */
  newtype Char8 = x: int | -128 <= x < 128

  const Nul: Char8 := 0
  const Zero: Char8 := 48      // '0'
  const One: Char8 := 49       // '1'
  const Question: Char8 := 63  // '?'

  /** The exception kinds of `error_info` / `_error_info` and of the stack. */
  datatype Fault = Underflow | Overflow | IterRange

  datatype Option<T> = None | Some(value: T)

  datatype Result<T> = Ok(value: T) | Err(fault: Fault)
}
