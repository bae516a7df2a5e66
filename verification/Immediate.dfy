/** Immediate extension (pygen/pygen_src/isa/riscv_instr.py). */
module Immediate {
  import opened Bits
  import opened Words

  datatype Format = U_FORMAT | J_FORMAT | I_FORMAT | S_FORMAT | B_FORMAT | R_FORMAT

  datatype ImmType = IMM | UIMM | NZUIMM | NZIMM

  const WORD: nat := Modulus(32)

  /** The immediate is not sign-extended for these. */
  predicate Unsigned(format: Format, immType: ImmType) {
    format == U_FORMAT || immType in {UIMM, NZUIMM}
  }

  function LengthOf(format: Format, immType: ImmType, before: nat): nat {
    match format
    case U_FORMAT | J_FORMAT => 20
    case I_FORMAT | S_FORMAT | B_FORMAT => if immType == UIMM then 5 else 12
    case R_FORMAT => before
  }

  class Instr {
    var format: Format
    var immType: ImmType
    var immLen: nat
    var immMask: nat
    var imm: nat

    constructor (format: Format, immType: ImmType, imm: nat)
      ensures this.format == format && this.immType == immType && this.imm == imm
      ensures immLen == 0 && immMask == WORD - 1
    {
      this.format, this.immType, this.imm := format, immType, imm;
      immLen, immMask := 0, WORD - 1;
    }

    method SetImmLen()
      modifies `immLen, `immMask
      ensures immLen == LengthOf(format, immType, old(immLen))
      ensures format in {U_FORMAT, J_FORMAT} ==> immLen == 20
      ensures format in {I_FORMAT, S_FORMAT, B_FORMAT} ==> immLen == if immType == UIMM then 5 else 12
      ensures format == R_FORMAT ==> immLen == old(immLen)
      ensures immMask == (old(immMask) * Pow2(immLen)) % WORD
    {
      if format in {U_FORMAT, J_FORMAT} {
        immLen := 20;
      } else if format in {I_FORMAT, S_FORMAT, B_FORMAT} {
        if immType == UIMM {
          immLen := 5;
        } else {
          immLen := 12;
        }
      }
      immMask := (immMask * Pow2(immLen)) % WORD;
    }

    /** Shifts the immediate up against bit 31 and back, and sets the upper bits when it is signed and negative. */
    method ExtendImm()
      requires immLen <= 32
      modifies `imm
      ensures imm == Extended(old(imm), immLen, immMask, Unsigned(format, immType))
    {
      imm := (imm * Pow2(32 - immLen)) % WORD;
      var sign := imm / 0x8000_0000 % 2;
      imm := (imm / Pow2(32 - immLen)) % WORD;
      if sign == 1 && !(format == U_FORMAT || immType in {UIMM, NZUIMM}) {
        imm := BitOr(immMask, imm);
      }
    }
  }

  /** The bits the shifts leave, and whether the top one is set. */
  function Shifted(imm: nat, len: nat): nat
    requires len <= 32
  {
    (imm * Pow2(32 - len)) % WORD
  }

  function Extended(imm: nat, len: nat, mask: nat, unsigned: bool): nat
    requires len <= 32
  {
    var up := Shifted(imm, len);
    var low := (up / Pow2(32 - len)) % WORD;
    if up / 0x8000_0000 % 2 == 1 && !unsigned then BitOr(mask, low) else low
  }

  /** `uintToInt`: a 32-bit pattern as a signed number. */
  function UintToInt(x: nat): int {
    if x < WORD / 2 then x else x - WORD
  }

  // ---------------------------------------------------------------- what it means

  lemma WordIsPow()
    ensures Pow2(32) == WORD && Pow2(31) == 0x8000_0000
  {
    ModulusIsPow(32);
  }

  lemma ShiftedUp(imm: nat, p: nat, s: nat, w: nat)
    requires p > 0 && s > 0 && w == p * s
    ensures (imm * s) % w == (imm % p) * s
  {
    var low, high := imm % p, imm / p;
    assert imm == p * high + low;
    Rearranged(p, s, high, low);
    MulMonotone(s, low + 1, p);
    DivUnique(imm * s, w, high, low * s);
  }

  lemma Rearranged(p: nat, s: nat, high: nat, low: nat)
    ensures (p * high + low) * s == (p * s) * high + low * s
  {
  }

  lemma TopBit(low: nat, h: nat, s: nat, top: nat)
    requires s > 0 && h > 0 && h * s == top && low < 2 * h
    ensures (low * s / top) % 2 == 1 <==> low >= h
  {
    if low >= h {
      MulMonotone(s, h, low);
      MulMonotone(s, low + 1, 2 * h);
      Doubled(h, s);
      DivUnique(low * s, top, 1, low * s - top);
    } else {
      MulMonotone(s, low + 1, h);
      DivUnique(low * s, top, 0, low * s);
    }
  }

  lemma Doubled(h: nat, s: nat)
    ensures s * (2 * h) == 2 * (h * s)
  {
  }

  lemma MaskShape(p: nat, q: nat, w: nat)
    requires p > 0 && q > 0 && q * p == w
    ensures ((w - 1) * p) % w == (q - 1) * p
  {
    assert (q - 1) * p == w - p;
    assert (w - 1) * p == w * (p - 1) + (w - p);
    MulMonotone(p, 1, q);
    DivUnique((w - 1) * p, w, p - 1, w - p);
  }

  /** The mask `set_imm_len` leaves for a fresh instruction. */
  function FreshMask(len: nat): nat {
    ((WORD - 1) * Pow2(len)) % WORD
  }

  lemma MaskFills(len: nat)
    requires 1 <= len <= 31
    ensures FreshMask(len) == (Pow2(32 - len) - 1) * Pow2(len) == WORD - Pow2(len)
  {
    WordIsPow();
    PowSum(32 - len, len);
    MaskShape(Pow2(len), Pow2(32 - len), WORD);
  }

  lemma LowBits(imm: nat, len: nat)
    requires 1 <= len <= 31
    ensures Shifted(imm, len) == (imm % Pow2(len)) * Pow2(32 - len)
    ensures (Shifted(imm, len) / Pow2(32 - len)) % WORD == imm % Pow2(len)
    ensures (Shifted(imm, len) / 0x8000_0000) % 2 == 1 <==> imm % Pow2(len) >= Pow2(len - 1)
  {
    var p, s, low := Pow2(len), Pow2(32 - len), imm % Pow2(len);
    WordIsPow();
    PowSum(len, 32 - len);
    ShiftedUp(imm, p, s, WORD);
    LengthFits(len);
    Unshifted(low, s);
    PowSum(len - 1, 32 - len);
    TopBit(low, Pow2(len - 1), s, 0x8000_0000);
  }

  lemma Unshifted(low: nat, s: nat)
    requires s > 0 && low < WORD
    ensures (low * s / s) % WORD == low
  {
    DivUnique(low * s, s, low, 0);
  }

  /** The number the low `len` bits stand for. */
  function Meaning(imm: nat, len: nat, unsigned: bool): int
    requires 1 <= len
  {
    var low := imm % Pow2(len);
    if unsigned || low < Pow2(len - 1) then low else low - Pow2(len)
  }

  lemma LengthFits(len: nat)
    requires 1 <= len <= 31
    ensures 2 * Pow2(len - 1) == Pow2(len) <= WORD / 2
  {
    WordIsPow();
    PowSum(len, 31 - len);
    MulMonotone(Pow2(len), 1, Pow2(31 - len));
  }

  /** What extension leaves, as a number. */
  function Filled(low: nat, len: nat, unsigned: bool): nat
    requires 1 <= len <= 31
  {
    if unsigned || low < Pow2(len - 1) then low else FreshMask(len) + low
  }

  lemma ExtendedFills(imm: nat, len: nat, unsigned: bool)
    requires 1 <= len <= 31
    ensures Extended(imm, len, FreshMask(len), unsigned) == Filled(imm % Pow2(len), len, unsigned)
  {
    LowBits(imm, len);
    MaskOr(len, imm % Pow2(len));
  }

  lemma MaskOr(len: nat, low: nat)
    requires 1 <= len <= 31 && low < Pow2(len)
    ensures BitOr(FreshMask(len), low) == FreshMask(len) + low
  {
    MaskFills(len);
    OrOfShifted(Pow2(32 - len) - 1, len, low);
  }

  /** A fresh instruction's immediate, extended and printed, is the number its low bits stand for. */
  lemma ExtendedMeaning(imm: nat, len: nat, unsigned: bool)
    requires 1 <= len <= 31
    ensures UintToInt(Extended(imm, len, FreshMask(len), unsigned)) == Meaning(imm, len, unsigned)
  {
    ExtendedFills(imm, len, unsigned);
    MaskFills(len);
    LengthFits(len);
  }

  const P5: nat := 32
  const P12: nat := 4096
  const P20: nat := 0x10_0000

  lemma LengthPowers()
    ensures Pow2(5) == P5 && Pow2(4) == P5 / 2
    ensures Pow2(12) == P12 && Pow2(11) == P12 / 2
    ensures Pow2(20) == P20 && Pow2(19) == P20 / 2
  {
    assert Pow2(5) == 32;
    PowSum(5, 5);
    assert Pow2(10) == 1024;
    PowSum(10, 10);
  }

  lemma SignedOf(imm: nat, p: nat, low: nat)
    requires p > 0 && low == imm % p
    ensures (imm - low) % p == 0 && (imm - (low - p)) % p == 0
  {
    var q := imm / p;
    assert imm == p * q + low;
    DivUnique(imm - low, p, q, 0);
    assert imm - (low - p) == p * (q + 1);
    DivUnique(imm - low + p, p, q + 1, 0);
  }

  /**
   * What a fresh instruction's immediate comes to, format by format: its low 20 bits for U and J, its low five
   * where I, S and B take an unsigned immediate and otherwise its low 12; signed except for U and the unsigned
   * immediates.
   */
  lemma FormatMeaning(format: Format, immType: ImmType, imm: nat)
    requires format != R_FORMAT
    ensures var len := LengthOf(format, immType, 0);
            1 <= len <= 31 &&
            var v := UintToInt(Extended(imm, len, FreshMask(len), Unsigned(format, immType)));
            if format == U_FORMAT then v == imm % 0x10_0000
            else if format == J_FORMAT then
              if immType in {UIMM, NZUIMM} then v == imm % 0x10_0000
              else -0x8_0000 <= v < 0x8_0000 && (imm - v) % 0x10_0000 == 0
            else
              if immType == UIMM then v == imm % 32
              else if immType == NZUIMM then v == imm % 4096
              else -2048 <= v < 2048 && (imm - v) % 4096 == 0
  {
    var len := LengthOf(format, immType, 0);
    ExtendedMeaning(imm, len, Unsigned(format, immType));
    LengthPowers();
    SignedOf(imm, P12, imm % P12);
    SignedOf(imm, P20, imm % P20);
  }

  /** An R-format instruction has no immediate length, and extension clears what was there. */
  lemma RegisterFormatCleared(immType: ImmType, imm: nat)
    ensures Extended(imm, LengthOf(R_FORMAT, immType, 0), FreshMask(0), Unsigned(R_FORMAT, immType)) == 0
  {
    WordIsPow();
    DivUnique(imm * WORD, WORD, imm, 0);
  }

  lemma Remainder(a: nat, p: nat, q: nat, low: nat)
    requires low < p && a == q * p + low
    ensures a % p == low
  {
    DivUnique(a, p, q, low);
  }

  lemma FilledLow(low: nat, len: nat, unsigned: bool)
    requires 1 <= len <= 31 && low < Pow2(len)
    ensures Filled(low, len, unsigned) % Pow2(len) == low
  {
    MaskFills(len);
    Remainder(low, Pow2(len), 0, low);
    Remainder(FreshMask(len) + low, Pow2(len), Pow2(32 - len) - 1, low);
  }

  /** Extending again changes nothing. */
  lemma ExtendedTwice(imm: nat, len: nat, unsigned: bool)
    requires 1 <= len <= 31
    ensures var once := Extended(imm, len, FreshMask(len), unsigned);
            Extended(once, len, FreshMask(len), unsigned) == once
  {
    ExtendedFills(imm, len, unsigned);
    ExtendedFills(Filled(imm % Pow2(len), len, unsigned), len, unsigned);
    FilledLow(imm % Pow2(len), len, unsigned);
  }
}
