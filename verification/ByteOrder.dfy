/** Little-endian integers in byte strings. */
module ByteOrder {
  import opened Machine

  const U32_MODULUS: int := 0x1_0000_0000

  type u32 = x: int | 0 <= x < U32_MODULUS

  function Power256(width: nat): (p: nat)
    ensures 0 < p
  {
    if width == 0 then 1 else 256 * Power256(width - 1)
  }

  /** The low `width` bytes of x, least significant first. */
  function ToLittleEndian(x: nat, width: nat): (b: Bytes)
    ensures |b| == width
  {
    if width == 0 then [] else [x % 256] + ToLittleEndian(x / 256, width - 1)
  }

  function FromLittleEndian(b: Bytes): nat {
    if b == [] then 0 else b[0] + 256 * FromLittleEndian(b[1..])
  }

  lemma {:induction false} DecodesBelowPower(b: Bytes)
    ensures FromLittleEndian(b) < Power256(|b|)
  {
    if b == [] {
    } else {
      DecodesBelowPower(b[1..]);
    }
  }

  /** Reading back what was written gives the value, if it fits. */
  lemma {:induction false} LittleEndianRoundTrip(x: nat, width: nat)
    requires x < Power256(width)
    ensures FromLittleEndian(ToLittleEndian(x, width)) == x
  {
    if width == 0 {
    } else {
      var b := ToLittleEndian(x, width);
      assert b[1..] == ToLittleEndian(x / 256, width - 1);
      LittleEndianRoundTrip(x / 256, width - 1);
    }
  }

  /** Every byte string is the encoding of the value read from it. */
  lemma {:induction false} LittleEndianIsOnto(b: Bytes)
    ensures ToLittleEndian(FromLittleEndian(b), |b|) == b
  {
    if b == [] {
    } else {
      var rest := FromLittleEndian(b[1..]);
      LittleEndianIsOnto(b[1..]);
      assert (b[0] + 256 * rest) % 256 == b[0];
      assert (b[0] + 256 * rest) / 256 == rest;
    }
  }

  lemma FourAndEight()
    ensures Power256(4) == U32_MODULUS && Power256(8) == U64_MODULUS
  {
  }

  /** A 32-bit length, cut down to 32 bits. */
  function U32Bytes(x: nat): (b: Bytes)
    ensures |b| == 4
  {
    ToLittleEndian(x % U32_MODULUS, 4)
  }

  function ReadU32(b: Bytes): u32
    requires |b| == 4
  {
    DecodesBelowPower(b);
    FourAndEight();
    FromLittleEndian(b)
  }

  /** A signed 64-bit value in two's complement. */
  function I64Bytes(x: i64): (b: Bytes)
    ensures |b| == 8
  {
    ToLittleEndian(if x < 0 then x + U64_MODULUS else x, 8)
  }

  function ReadI64(b: Bytes): i64
    requires |b| == 8
  {
    DecodesBelowPower(b);
    FourAndEight();
    var x := FromLittleEndian(b);
    if x <= I64_MAX then x else x - U64_MODULUS
  }

  lemma U32RoundTrip(x: nat)
    requires x < U32_MODULUS
    ensures ReadU32(U32Bytes(x)) == x
  {
    hide ToLittleEndian;
    hide FromLittleEndian;
    hide Power256;
    FourAndEight();
    LittleEndianRoundTrip(x, 4);
  }

  lemma U32IsOnto(b: Bytes)
    requires |b| == 4
    ensures U32Bytes(ReadU32(b)) == b
  {
    LittleEndianIsOnto(b);
  }

  lemma I64RoundTrip(x: i64)
    ensures ReadI64(I64Bytes(x)) == x
  {
    hide ToLittleEndian;
    hide FromLittleEndian;
    hide Power256;
    FourAndEight();
    LittleEndianRoundTrip(if x < 0 then x + U64_MODULUS else x, 8);
  }

  lemma I64IsOnto(b: Bytes)
    requires |b| == 8
    ensures I64Bytes(ReadI64(b)) == b
  {
    DecodesBelowPower(b);
    FourAndEight();
    LittleEndianIsOnto(b);
  }

  // ----- byte by byte -----

  lemma FromFront(b: Bytes)
    requires b != []
    ensures FromLittleEndian(b) == b[0] + 0x100 * FromLittleEndian(b[1..])
  {
  }

  lemma FourBytes(b: Bytes)
    requires |b| == 4
    ensures FromLittleEndian(b)
         == b[0] as int + 0x100 * b[1] as int + 0x1_0000 * b[2] as int + 0x100_0000 * b[3] as int
  {
    FromFront(b);
    FromFront(b[1..]);
    FromFront(b[2..]);
    FromFront(b[3..]);
    assert b[1..][1..] == b[2..] && b[2..][1..] == b[3..] && b[3..][1..] == [];
  }

  /** The first byte weighs one, the last the most. */
  lemma ReadU32ByByte(b: Bytes)
    requires |b| == 4
    ensures ReadU32(b) == b[0] as int + 0x100 * b[1] as int + 0x1_0000 * b[2] as int + 0x100_0000 * b[3] as int
  {
    FourBytes(b);
  }

  lemma EightBytes(b: Bytes)
    requires |b| == 8
    ensures FromLittleEndian(b) == FromLittleEndian(b[..4]) + 0x1_0000_0000 * FromLittleEndian(b[4..])
  {
    hide FromLittleEndian;
    FromFront(b);
    FromFront(b[1..]);
    FromFront(b[2..]);
    FromFront(b[3..]);
    assert b[1..][1..] == b[2..] && b[2..][1..] == b[3..] && b[3..][1..] == b[4..];
    FourBytes(b[..4]);
  }

  /** The eight bytes as an unsigned number, less 2^64 if the top bit of the last one is set. */
  lemma ReadI64ByByte(b: Bytes)
    requires |b| == 8
    ensures var x := b[0] as int + 0x100 * b[1] as int + 0x1_0000 * b[2] as int + 0x100_0000 * b[3] as int
                     + 0x1_0000_0000 * (b[4] as int + 0x100 * b[5] as int + 0x1_0000 * b[6] as int
                                        + 0x100_0000 * b[7] as int);
            ReadI64(b) == if b[7] < 0x80 then x else x - 0x1_0000_0000_0000_0000
  {
    hide FromLittleEndian;
    EightBytes(b);
    FourBytes(b[..4]);
    FourBytes(b[4..]);
  }
}
