/** The four branch encodings a stub is made of, and what a processor makes of them. */
module Trampolines {
  import opened Arithmetic
  import opened Bytes

  datatype StubError = Misaligned | OutOfRange | DoesNotFit

  // ----- A64: B imm26 ---------------------------------------------------

  const A64_NOP: seq<byte> := [0x1F, 0x20, 0x03, 0xD5]

  function EncodeA64(displacement: int): Result<seq<byte>, StubError> {
    if displacement % 4 != 0 then Err(Misaligned)
    else if !(-0x200_0000 <= displacement / 4 < 0x200_0000) then Err(OutOfRange)
    else Ok(Le(0x1400_0000 + displacement / 4 % 0x400_0000, 4))
  }

  /** Sign-extends a field of modulus `2 * half`. */
  function Signed(v: nat, half: nat): int { if v >= half then v - 2 * half else v }

  /** Where the instruction at `pc` branches, if it is `B`. */
  function DecodeA64(word: nat, pc: int): Option<int> {
    if word / 0x400_0000 == 5 then Some(pc + 4 * Signed(word % 0x400_0000, 0x200_0000)) else None
  }

  lemma SignedMod(v: int, half: int)
    requires half > 0 && -half <= v < half
    ensures 0 <= v % (2 * half) < 2 * half && Signed(v % (2 * half), half) == v
  {
    if v >= 0 {
      DivMod(v, 2 * half, 0, v);
    } else {
      DivMod(v, 2 * half, -1, v + 2 * half);
    }
  }

  /** A 32-bit little-endian word. */
  function WordAt(s: seq<byte>): nat
    requires |s| >= 4
  {
    FromLe(s[..4])
  }

  lemma WordOfLe(v: nat)
    requires v < U32_LIMIT
    ensures WordAt(Le(v, 4)) == v
  {
    U32ReadsBack(v);
    assert Le(v, 4)[..4] == Le(v, 4);
  }

  lemma A64Branches(displacement: int, pc: int)
    requires EncodeA64(displacement).Ok?
    ensures |EncodeA64(displacement).value| == 4
    ensures DecodeA64(WordAt(EncodeA64(displacement).value), pc) == Some(pc + displacement)
  {
    var words := displacement / 4;
    SignedMod(words, 0x200_0000);
    var imm := words % 0x400_0000;
    DivMod(0x1400_0000 + imm, 0x400_0000, 5, imm);
    WordOfLe(0x1400_0000 + imm);
  }

  // ----- A32: B imm24 ---------------------------------------------------

  function EncodeA32(displacement: int): Result<seq<byte>, StubError> {
    if displacement % 4 != 0 then Err(Misaligned)
    else if !(-0x80_0000 <= (displacement - 8) / 4 < 0x80_0000) then Err(OutOfRange)
    else Ok(Le(0xEA00_0000 + (displacement - 8) / 4 % 0x100_0000, 4))
  }

  /** An always-executed `B`; the program counter reads two instructions ahead. */
  function DecodeA32(word: nat, pc: int): Option<int> {
    if word / 0x100_0000 == 0xEA then Some(pc + 8 + 4 * Signed(word % 0x100_0000, 0x80_0000)) else None
  }

  lemma A32Branches(displacement: int, pc: int)
    requires EncodeA32(displacement).Ok?
    ensures |EncodeA32(displacement).value| == 4
    ensures DecodeA32(WordAt(EncodeA32(displacement).value), pc) == Some(pc + displacement)
  {
    var words := (displacement - 8) / 4;
    assert displacement - 8 == 4 * words;
    SignedMod(words, 0x80_0000);
    var imm := words % 0x100_0000;
    DivMod(0xEA00_0000 + imm, 0x100_0000, 0xEA, imm);
    WordOfLe(0xEA00_0000 + imm);
  }

  // ----- Thumb-2: B.W, encoding T4 (section A8.8.18 of ARM DDI 0406C) ---

  const THUMB_NOP: seq<byte> := [0x00, 0xBF]

  function Xor(a: nat, b: nat): nat { if a == b then 0 else 1 }

  /** The fields of a 25-bit two's complement offset. */
  function FirstHalf(u: nat): nat {
    0xF000 + u / 0x100_0000 % 2 * 0x400 + u / 0x1000 % 0x400
  }

  function SecondHalf(u: nat): nat {
    var s, i1, i2 := u / 0x100_0000 % 2, u / 0x80_0000 % 2, u / 0x40_0000 % 2;
    0x9000 + Xor(1 - i1, s) * 0x2000 + Xor(1 - i2, s) * 0x800 + u / 2 % 0x800
  }

  function EncodeThumb(displacement: int): Result<seq<byte>, StubError> {
    var off := displacement - 4;
    if off % 2 != 0 then Err(Misaligned)
    else if !(-0x100_0000 <= off < 0x100_0000) then Err(OutOfRange)
    else
      var u := off % 0x200_0000;
      Ok(Le(FirstHalf(u), 2) + Le(SecondHalf(u), 2))
  }

  /** `B.W` in encoding T4: S, imm10, J1, J2, imm11, with I = NOT(J XOR S). */
  function DecodeThumb(hw1: nat, hw2: nat, pc: int): Option<int> {
    if hw1 / 0x800 == 0x1E && hw2 / 0x4000 == 2 && hw2 / 0x1000 % 2 == 1 then
      var s, j1, j2 := hw1 / 0x400 % 2, hw2 / 0x2000 % 2, hw2 / 0x800 % 2;
      var i1, i2 := 1 - Xor(j1, s), 1 - Xor(j2, s);
      Some(pc + 4 + Signed(s * 0x100_0000 + i1 * 0x80_0000 + i2 * 0x40_0000 + hw1 % 0x400 * 0x1000 + hw2 % 0x800 * 2, 0x100_0000))
    else None
  }

  function HalfAt(s: seq<byte>, at: nat): nat
    requires at + 2 <= |s|
  {
    FromLe(s[at..at + 2])
  }

  lemma HalfOfLe(v: nat)
    requires v < U16_LIMIT
    ensures FromLe(Le(v, 2)) == v
  {
    Pow256Values();
    FromLeOfLe(v, 2);
  }

  /** The halfword fields come apart again. */
  lemma FirstFields(s: nat, imm10: nat)
    requires s < 2 && imm10 < 0x400
    ensures var hw := 0xF000 + s * 0x400 + imm10;
            hw < U16_LIMIT && hw / 0x800 == 0x1E && hw / 0x400 % 2 == s && hw % 0x400 == imm10
  {
    var hw := 0xF000 + s * 0x400 + imm10;
    DivMod(hw, 0x400, 0x3C + s, imm10);
    DivMod(0x3C + s, 2, 0x1E, s);
    DivMod(hw, 0x800, 0x1E, s * 0x400 + imm10);
  }

  lemma SecondFields(j1: nat, j2: nat, imm11: nat)
    requires j1 < 2 && j2 < 2 && imm11 < 0x800
    ensures var hw := 0x9000 + j1 * 0x2000 + j2 * 0x800 + imm11;
            && hw < U16_LIMIT && hw / 0x4000 == 2 && hw / 0x1000 % 2 == 1
            && hw / 0x2000 % 2 == j1 && hw / 0x800 % 2 == j2 && hw % 0x800 == imm11
  {
    var hw := 0x9000 + j1 * 0x2000 + j2 * 0x800 + imm11;
    DivMod(hw, 0x4000, 2, 0x1000 + j1 * 0x2000 + j2 * 0x800 + imm11);
    DivMod(hw, 0x2000, 4 + j1, 0x1000 + j2 * 0x800 + imm11);
    DivMod(4 + j1, 2, 2, j1);
    DivMod(hw, 0x1000, 9 + 2 * j1, j2 * 0x800 + imm11);
    DivMod(9 + 2 * j1, 2, 4 + j1, 1);
    DivMod(hw, 0x800, 18 + 4 * j1 + j2, imm11);
    DivMod(18 + 4 * j1 + j2, 2, 9 + 2 * j1, j2);
  }

  /** An even 25-bit number is its S, I1, I2, imm10 and imm11 put together. */
  lemma OffsetFields(u: nat)
    requires u < 0x200_0000 && u % 2 == 0
    ensures var s, i1, i2 := u / 0x100_0000 % 2, u / 0x80_0000 % 2, u / 0x40_0000 % 2;
            u == s * 0x100_0000 + i1 * 0x80_0000 + i2 * 0x40_0000 + u / 0x1000 % 0x400 * 0x1000 + u / 2 % 0x800 * 2
  {
    var a := u / 2;
    var b := a / 0x800;
    var c := b / 0x400;
    var d := c / 2;
    var e := d / 2;
    assert u == 2 * a && a == b * 0x800 + a % 0x800 && b == c * 0x400 + b % 0x400 && c == d * 2 + c % 2 && d == e * 2 + d % 2;
    DivMod(u, 0x1000, b, a % 0x800 * 2);
    DivMod(u, 0x40_0000, c, b % 0x400 * 0x1000 + a % 0x800 * 2);
    DivMod(u, 0x80_0000, d, c % 2 * 0x40_0000 + b % 0x400 * 0x1000 + a % 0x800 * 2);
    DivMod(u, 0x100_0000, e, d % 2 * 0x80_0000 + c % 2 * 0x40_0000 + b % 0x400 * 0x1000 + a % 0x800 * 2);
    assert e < 2;
  }

  lemma XorTwice(i: nat, s: nat)
    requires i < 2 && s < 2
    ensures Xor(1 - i, s) < 2 && 1 - Xor(Xor(1 - i, s), s) == i
  {}

  lemma HalvesDecode(u: nat, pc: int)
    requires u < 0x200_0000 && u % 2 == 0
    ensures FirstHalf(u) < U16_LIMIT && SecondHalf(u) < U16_LIMIT
    ensures DecodeThumb(FirstHalf(u), SecondHalf(u), pc) == Some(pc + 4 + Signed(u, 0x100_0000))
  {
    var s, i1, i2 := u / 0x100_0000 % 2, u / 0x80_0000 % 2, u / 0x40_0000 % 2;
    XorTwice(i1, s);
    XorTwice(i2, s);
    FirstFields(s, u / 0x1000 % 0x400);
    SecondFields(Xor(1 - i1, s), Xor(1 - i2, s), u / 2 % 0x800);
    OffsetFields(u);
    hide *;
    FieldsDecode(FirstHalf(u), SecondHalf(u), s, Xor(1 - i1, s), Xor(1 - i2, s), u / 0x1000 % 0x400, u / 2 % 0x800, pc);
  }

  lemma FieldsDecode(hw1: nat, hw2: nat, s: nat, j1: nat, j2: nat, imm10: nat, imm11: nat, pc: int)
    requires hw1 / 0x800 == 0x1E && hw1 / 0x400 % 2 == s && hw1 % 0x400 == imm10
    requires hw2 / 0x4000 == 2 && hw2 / 0x1000 % 2 == 1 && hw2 / 0x2000 % 2 == j1 && hw2 / 0x800 % 2 == j2 && hw2 % 0x800 == imm11
    ensures var i1, i2 := 1 - Xor(j1, s), 1 - Xor(j2, s);
            DecodeThumb(hw1, hw2, pc)
            == Some(pc + 4 + Signed(s * 0x100_0000 + i1 * 0x80_0000 + i2 * 0x40_0000 + imm10 * 0x1000 + imm11 * 2, 0x100_0000))
  {
    hide Xor, Signed;
  }

  lemma ThumbBranches(displacement: int, pc: int)
    requires EncodeThumb(displacement).Ok?
    ensures var t := EncodeThumb(displacement).value;
            |t| == 4 && DecodeThumb(HalfAt(t, 0), HalfAt(t, 2), pc) == Some(pc + displacement)
  {
    var off := displacement - 4;
    var u := off % 0x200_0000;
    SignedMod(off, 0x100_0000);
    EvenMod(off, u);
    HalvesDecode(u, pc);
    HalfOfLe(FirstHalf(u));
    HalfOfLe(SecondHalf(u));
    var t := EncodeThumb(displacement).value;
    assert t[0..2] == Le(FirstHalf(u), 2) && t[2..4] == Le(SecondHalf(u), 2);
  }

  lemma EvenMod(off: int, u: nat)
    requires off % 2 == 0 && u == off % 0x200_0000
    ensures u % 2 == 0
  {
    assert off == off / 0x200_0000 * 0x200_0000 + u;
  }

  // ----- x86: jmp rel32 -------------------------------------------------

  const X86_NOP: byte := 0x90

  function EncodeX86(displacement: int): Result<seq<byte>, StubError> {
    var rel := displacement - 5;
    if !(-0x8000_0000 <= rel < 0x8000_0000) then Err(OutOfRange) else Ok([0xE9] + Le(rel % U32_LIMIT, 4))
  }

  /** `jmp rel32`, relative to the end of its five bytes. */
  function DecodeX86(s: seq<byte>, pc: int): Option<int>
    requires |s| >= 5
  {
    if s[0] == 0xE9 then Some(pc + 5 + Signed(FromLe(s[1..5]), 0x8000_0000)) else None
  }

  lemma X86Branches(displacement: int, pc: int)
    requires EncodeX86(displacement).Ok?
    ensures |EncodeX86(displacement).value| == 5 && DecodeX86(EncodeX86(displacement).value, pc) == Some(pc + displacement)
  {
    var rel := displacement - 5;
    SignedMod(rel, 0x8000_0000);
    U32ReadsBack(rel % U32_LIMIT);
    assert EncodeX86(displacement).value[1..5] == Le(rel % U32_LIMIT, 4);
  }
}
