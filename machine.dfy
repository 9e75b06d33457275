/** Fixed-width integer types of the C++ engine, and the failure-carrying
    result type used wherever the engine reports an error by return value. */
module Machine {

  const U8_LIMIT: int := 0x100
  const U32_MAX: int := 0xFFFF_FFFF
  const I32_MIN: int := -0x8000_0000
  const I32_MAX: int := 0x7FFF_FFFF

  /** An unsigned byte (`u8`). */
  type u8 = x: int | 0 <= x < U8_LIMIT

  /** An unsigned 32-bit integer (`u32`). */
  type u32 = x: int | 0 <= x <= U32_MAX

  /** A signed 32-bit integer (`i32`). */
  type i32 = x: int | I32_MIN <= x <= I32_MAX

  /** The value a 32-bit pattern has when it is read as a two's-complement `i32`,
      as the C++ conversion of an unsigned literal such as `0xFFFFFFFF` does. */
  function AsI32(bits: u32): (r: i32)
    ensures r % 0x1_0000_0000 == bits % 0x1_0000_0000
    ensures bits <= I32_MAX ==> r == bits
    ensures bits > I32_MAX ==> r < 0
  {
    if bits <= I32_MAX then bits else bits - 0x1_0000_0000
  }

  datatype Option<+T> = None | Some(value: T)

  datatype Result<+T, +E> = Ok(value: T) | Err(error: E) {
    predicate IsFailure() { Err? }
    function PropagateFailure<U>(): Result<U, E>
      requires Err?
    {
      Err(error)
    }
    function Extract(): T
      requires Ok?
    {
      value
    }
  }
}
