/** Fixed-width integers, byte strings and results shared by both programs. */
module Machine {

  const U64_MODULUS: int := 0x1_0000_0000_0000_0000
  const U128_MODULUS: int := 0x1_0000_0000_0000_0000_0000_0000_0000_0000
  const I64_MAX: int := 0x7FFF_FFFF_FFFF_FFFF

  type u8 = x: int | 0 <= x < 0x100
  type u16 = x: int | 0 <= x < 0x1_0000
  type u64 = x: int | 0 <= x < U64_MODULUS
  type u128 = x: int | 0 <= x < U128_MODULUS
  type i64 = x: int | -I64_MAX - 1 <= x <= I64_MAX

  type Bytes = seq<u8>
  type Bytes32 = b: Bytes | |b| == 32 witness seq(32, _ => 0)
  type Pubkey = Bytes32

  /** A value or an error; `:-` propagates the error. */
  datatype Result<+T, +E> = Ok(value: T) | Err(error: E) {
    predicate IsFailure() {
      Err?
    }

    function PropagateFailure<U>(): Result<U, E>
      requires Err?
    {
      Err(error)
    }

    function Extract(): T
      requires Ok?
    {
      value
    }
  }

  /** The cast `as u64` of an unsigned value: the low 64 bits. */
  function AsU64(x: u128): u64 {
    x % U64_MODULUS
  }

  /** The cast `as u128` of a signed value: sign extension, so a negative value becomes huge. */
  function AsU128(x: i64): u128 {
    if x >= 0 then x else x + U128_MODULUS
  }
}
