/** The Sensirion CRC-8 that protects every 2-byte word on the SCD30 bus:
    polynomial 0x31, initial value 0xFF, most significant bit first, eight rounds per byte.

    The driver keeps the register in an unbounded Python integer and masks it to 8 bits only
    once, at the end. The model keeps it in 32 bits: with inputs below 2^16 no bit is ever
    shifted out, and in any case ChecksumIsByteChecksum shows that only the low byte of the
    register (and of each input) reaches the result. */
module Crc8 {

  const Polynomial: bv32 := 0x31
  const InitialValue: bv32 := 0xFF
  /** Rounds of the inner loop per input byte. */
  const BitsPerByte: nat := 8

  /** Inputs the model covers: every bus byte, and every interval the driver accepts. */
  predicate InRange(d: int) { 0 <= d < 0x1_0000 }

  /** One pass of the inner loop: shift left, and fold in the polynomial when bit 7 was set. */
  function Round(crc: bv32): bv32
  {
    if crc & 0x80 != 0 then (crc << 1) ^ Polynomial else crc << 1
  }

  /** `n` passes of the inner loop, applied in order. */
  function Rounds(crc: bv32, n: nat): bv32
  {
    if n == 0 then crc else Round(Rounds(crc, n - 1))
  }

  /** The bit pattern of an input in the register: its high byte above its low byte. */
  function Bits(d: int): bv32
    requires InRange(d)
  {
    (((d / 256) as bv8) as bv32 << 8) | LowByte(d) as bv32
  }

  /** One pass of the outer loop: XOR one input into the register, then eight rounds. */
  function Absorb(crc: bv32, d: int): bv32
    requires InRange(d)
  {
    Rounds(crc ^ Bits(d), BitsPerByte)
  }

  /** What `crc_calc([d0, d1])` returns. */
  function Checksum(d0: int, d1: int): (r: int)
    requires InRange(d0) && InRange(d1)
    ensures 0 <= r < 256
  {
    ((Absorb(Absorb(InitialValue, d0), d1) & 0xFF) as bv8) as int
  }

  /** Reference definition: the textbook CRC-8 whose register is 8 bits wide, so that it is
      masked after every shift. */
  function ByteRound(crc: bv8): bv8
  {
    if crc & 0x80 != 0 then (crc << 1) ^ 0x31 else crc << 1
  }

  function ByteRounds(crc: bv8, n: nat): bv8
  {
    if n == 0 then crc else ByteRound(ByteRounds(crc, n - 1))
  }

  function ByteChecksum(b0: bv8, b1: bv8): bv8
  {
    ByteRounds(ByteRounds(0xFF ^ b0, BitsPerByte) ^ b1, BitsPerByte)
  }

  /** The low byte of an input, as an 8-bit value. */
  function LowByte(d: int): bv8
    requires InRange(d)
  {
    (d % 256) as bv8
  }

  lemma LowByteOfInput(d: int)
    requires InRange(d)
    ensures (Bits(d) & 0xFF) == LowByte(d) as bv32
  {
  }

  /** One round never lets bits 8 and above flow into the low byte. */
  lemma RoundLowByte(crc: bv32)
    ensures (Round(crc) & 0xFF) == ByteRound((crc & 0xFF) as bv8) as bv32
  {
  }

  lemma {:induction false} RoundsLowByte(crc: bv32, n: nat)
    ensures (Rounds(crc, n) & 0xFF) == ByteRounds((crc & 0xFF) as bv8, n) as bv32
  {
    if n > 0 {
      RoundsLowByte(crc, n - 1);
      RoundLowByte(Rounds(crc, n - 1));
    }
  }

  /** Folding one input into the register: the new low byte depends only on the old low
      byte `c` and on the input's low byte `x`. */
  lemma AbsorbLowByte(crc: bv32, c: bv8, d: int, x: bv8)
    requires InRange(d) && x == LowByte(d) && (crc & 0xFF) as bv8 == c
    ensures (Absorb(crc, d) & 0xFF) as bv8 == ByteRounds(c ^ x, BitsPerByte)
  {
    var a := crc ^ Bits(d);
    LowByteOfInput(d);
    assert (a & 0xFF) as bv8 == c ^ x;
    RoundsLowByte(a, BitsPerByte);
  }

  /** The driver's CRC, which masks only once at the end, equals the 8-bit CRC masked after
      every shift, applied to the low bytes `x0`, `x1` of its inputs. For bus bytes the inputs
      are their own low bytes. */
  lemma ChecksumIsByteChecksum(d0: int, d1: int, x0: bv8, x1: bv8)
    requires InRange(d0) && InRange(d1)
    requires x0 == LowByte(d0) && x1 == LowByte(d1)
    ensures Checksum(d0, d1) == ByteChecksum(x0, x1) as int
  {
    ChecksumLowByte(d0, d1, x0, x1);
    ByteChecksumUnfold(x0, x1);
  }

  /** Only the low byte of each input reaches the CRC. */
  lemma ChecksumOfLowBytes(d0: int, d1: int)
    requires InRange(d0) && InRange(d1)
    ensures Checksum(d0, d1) == Checksum(d0 % 256, d1 % 256)
  {
    ChecksumIsByteChecksum(d0, d1, LowByte(d0), LowByte(d1));
    ChecksumIsByteChecksum(d0 % 256, d1 % 256, LowByte(d0 % 256), LowByte(d1 % 256));
  }

  lemma ChecksumLowByte(d0: int, d1: int, x0: bv8, x1: bv8)
    requires InRange(d0) && InRange(d1)
    requires x0 == LowByte(d0) && x1 == LowByte(d1)
    ensures (Absorb(Absorb(InitialValue, d0), d1) & 0xFF) as bv8
         == ByteRounds(ByteRounds(0xFF ^ x0, BitsPerByte) ^ x1, BitsPerByte)
  {
    var first, low := Absorb(InitialValue, d0), ByteRounds(0xFF ^ x0, BitsPerByte);
    assert (first & 0xFF) as bv8 == low by {
      FirstByteLow(d0, x0);
    }
    AbsorbLowByte(first, low, d1, x1);
  }

  lemma FirstByteLow(d0: int, x0: bv8)
    requires InRange(d0) && x0 == LowByte(d0)
    ensures (Absorb(InitialValue, d0) & 0xFF) as bv8 == ByteRounds(0xFF ^ x0, BitsPerByte)
  {
    AbsorbLowByte(InitialValue, 0xFF, d0, x0);
  }

  lemma ByteChecksumUnfold(b0: bv8, b1: bv8)
    ensures ByteChecksum(b0, b1) == ByteRounds(ByteRounds(0xFF ^ b0, BitsPerByte) ^ b1, BitsPerByte)
  {
  }

  /** The check value from the sensor's datasheet. */
  lemma DatasheetCheckValue()
    ensures Checksum(0xBE, 0xEF) == 0x92
  {
    ChecksumIsByteChecksum(0xBE, 0xEF, 0xBE, 0xEF);
    // the register after each round, for the first byte and then for the second
    var first: seq<bv8> := [0x41, 0x82, 0x35, 0x6a, 0xd4, 0x99, 0x03, 0x06, 0x0c];
    var second: seq<bv8> := [0xe3, 0xf7, 0xdf, 0x8f, 0x2f, 0x5e, 0xbc, 0x49, 0x92];
    for k := 0 to BitsPerByte
      invariant ByteRounds(first[0], k) == first[k]
      invariant ByteRounds(second[0], k) == second[k]
    {
    }
    ByteChecksumUnfold(0xBE, 0xEF);
  }

  /** The CRC of the zero word, which the start-measurement frame carries. */
  lemma ZeroWordCheckValue()
    ensures Checksum(0x00, 0x00) == 0x81
  {
    ChecksumIsByteChecksum(0x00, 0x00, 0x00, 0x00);
    var first: seq<bv8> := [0xff, 0xcf, 0xaf, 0x6f, 0xde, 0x8d, 0x2b, 0x56, 0xac];
    var second: seq<bv8> := [0xac, 0x69, 0xd2, 0x95, 0x1b, 0x36, 0x6c, 0xd8, 0x81];
    for k := 0 to BitsPerByte
      invariant ByteRounds(first[0], k) == first[k]
      invariant ByteRounds(second[0], k) == second[k]
    {
    }
    ByteChecksumUnfold(0x00, 0x00);
  }

  /** A round is a bijection on bytes, because the polynomial has its constant term. */
  lemma ByteRoundInjective(a: bv8, b: bv8)
    requires ByteRound(a) == ByteRound(b)
    ensures a == b
  {
  }

  lemma {:induction false} ByteRoundsInjective(a: bv8, b: bv8, n: nat)
    requires ByteRounds(a, n) == ByteRounds(b, n)
    ensures a == b
  {
    if n > 0 {
      ByteRoundInjective(ByteRounds(a, n - 1), ByteRounds(b, n - 1));
      ByteRoundsInjective(a, b, n - 1);
    }
  }

  lemma LowByteOfByte(d: int)
    requires 0 <= d < 256
    ensures LowByte(d) as int == d
  {
    assert d % 256 == d;
  }

  lemma XorCancel(p: bv8, q: bv8, x: bv8, y: bv8)
    requires p ^ x == q ^ y
    ensures p == q <==> x == y
  {
  }

  /** Two words with the same 8-bit CRC either agree in both bytes or differ in both. */
  lemma ByteChecksumInjective(x0: bv8, x1: bv8, y0: bv8, y1: bv8)
    requires ByteChecksum(x0, x1) == ByteChecksum(y0, y1)
    ensures x0 == y0 <==> x1 == y1
  {
    ByteChecksumUnfold(x0, x1);
    ByteChecksumUnfold(y0, y1);
    var p, q := ByteRounds(0xFF ^ x0, BitsPerByte), ByteRounds(0xFF ^ y0, BitsPerByte);
    ByteRoundsInjective(p ^ x1, q ^ y1, BitsPerByte);
    XorCancel(p, q, x1, y1);
    if p == q {
      ByteRoundsInjective(0xFF ^ x0, 0xFF ^ y0, BitsPerByte);
      XorCancel(0xFF, 0xFF, x0, y0);
    }
  }

  /** Changing exactly one of the two data bytes of a word changes its CRC: every
      single-byte error inside a 3-byte frame is detected. */
  lemma ChecksumDetectsByteChange(a0: int, a1: int, b0: int, b1: int)
    requires 0 <= a0 < 256 && 0 <= a1 < 256 && 0 <= b0 < 256 && 0 <= b1 < 256
    requires (a0 == b0) != (a1 == b1)
    ensures Checksum(a0, a1) != Checksum(b0, b1)
  {
    var x0, x1, y0, y1 := LowByte(a0), LowByte(a1), LowByte(b0), LowByte(b1);
    LowByteOfByte(a0); LowByteOfByte(a1); LowByteOfByte(b0); LowByteOfByte(b1);
    ChecksumIsByteChecksum(a0, a1, x0, x1);
    ChecksumIsByteChecksum(b0, b1, y0, y1);
    if ByteChecksum(x0, x1) == ByteChecksum(y0, y1) {
      ByteChecksumInjective(x0, x1, y0, y1);
    }
  }

  /** `crc_calc(data)`: the nested loops of the driver, over a register that is never masked
      until the end. Only `data[0]` and `data[1]` are read. */
  method CrcCalc(data: seq<int>) returns (crc: int)
    requires |data| >= 2 && InRange(data[0]) && InRange(data[1])
    ensures crc == Checksum(data[0], data[1])
  {
    var reg := InitialValue;
    for i := 0 to 2
      invariant i == 1 ==> reg == Absorb(InitialValue, data[0])
      invariant i == 2 ==> reg == Absorb(Absorb(InitialValue, data[0]), data[1])
      invariant i == 0 ==> reg == InitialValue
    {
      reg := reg ^ Bits(data[i]);
      ghost var start := reg;
      for k := 0 to BitsPerByte
        invariant reg == Rounds(start, k)
      {
        if reg & 0x80 != 0 {
          reg := (reg << 1) ^ Polynomial;
        } else {
          reg := reg << 1;
        }
      }
    }
    crc := ((reg & 0xFF) as bv8) as int;
  }
}
