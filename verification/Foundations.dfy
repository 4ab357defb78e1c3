/** Machine types and the two result shapes every other module uses. */
module Foundations {

  newtype byte = x: int | 0 <= x < 256
  type Bytes = seq<byte>
  type Bytes32 = octets: Bytes | |octets| == 32 witness seq(32, _ => 0 as byte)
  type Uuid = octets: Bytes | |octets| == 16 witness seq(16, _ => 0 as byte)

  const MIN_I64: int := -0x8000_0000_0000_0000
  const MAX_I64: int := 0x7FFF_FFFF_FFFF_FFFF
  type i64 = x: int | MIN_I64 <= x <= MAX_I64

  datatype Option<+T> = None | Some(value: T)
  datatype Result<+T, +E> = Ok(value: T) | Err(error: E)

  function SaturatingAdd(a: i64, b: i64): i64 {
    if a + b > MAX_I64 then MAX_I64 else if a + b < MIN_I64 then MIN_I64 else a + b
  }

  function CheckedAdd(a: i64, b: i64): Option<i64> {
    if MIN_I64 <= a + b <= MAX_I64 then Some(a + b) else None
  }
}
