/**
 * Lowering the 32-bit bit-permutation pseudo-instructions (scripts/lib.py, `convert_pseudo_instr`)
 * to `grevi`, `shfli` and `unshfli` of the RISC-V Bitmanip draft 0.92.
 *
 * A name such as `rev2.h` or `zip4` is read as the pair (group, unit): the number in it, 1 when there
 * is none, and the width its letter stands for: 2 for `p`, 4 for `n`, 8 for `b`, 16 for `h`, 32 for no letter.
 */
module BitPermutation {

  type Word = bv32

  // ---------------------------------------------------------------- the immediates the code appends

  predicate IsRev(group: Word, unit: Word) {
    unit in {2, 4, 8, 16, 32} && group in {1, 2, 4, 8, 16} && group < unit
  }

  function RevAmount(group: Word, unit: Word): Word
    requires IsRev(group, unit)
  {
    if unit == 2 then 1
    else if unit == 4 then if group == 2 then 2 else 3
    else if unit == 8 then if group == 4 then 4 else if group == 2 then 6 else 7
    else if unit == 16 then
      if group == 8 then 8 else if group == 4 then 12 else if group == 2 then 14 else 15
    else if group == 16 then 16
    else if group == 8 then 24
    else if group == 4 then 28
    else if group == 2 then 30
    else 31
  }

  predicate IsZip(group: Word, unit: Word) {
    unit in {4, 8, 16, 32} && group in {1, 2, 4, 8} && group < unit / 2
  }

  /** The same for `zip` and `unzip`. */
  function ZipAmount(group: Word, unit: Word): Word
    requires IsZip(group, unit)
  {
    if unit == 4 then 1
    else if unit == 8 then if group == 2 then 2 else 3
    else if unit == 16 then if group == 4 then 4 else if group == 2 then 6 else 7
    else if group == 8 then 8
    else if group == 4 then 12
    else if group == 2 then 14
    else 15
  }

  // ---------------------------------------------------------------- the regular instructions

  /** Exchange neighbouring groups of 1, 2, 4, 8 or 16 bits. */
  function Swap1(x: Word): Word { ((x & 0x5555_5555) << 1) | ((x & 0xAAAA_AAAA) >> 1) }
  function Swap2(x: Word): Word { ((x & 0x3333_3333) << 2) | ((x & 0xCCCC_CCCC) >> 2) }
  function Swap4(x: Word): Word { ((x & 0x0F0F_0F0F) << 4) | ((x & 0xF0F0_F0F0) >> 4) }
  function Swap8(x: Word): Word { ((x & 0x00FF_00FF) << 8) | ((x & 0xFF00_FF00) >> 8) }
  function Swap16(x: Word): Word { ((x & 0x0000_FFFF) << 16) | ((x & 0xFFFF_0000) >> 16) }

  /** One stage of `grevi`: the exchange, where `k` says so. */
  function Grev1(x: Word, k: Word): Word { if k & 1 == 0 then x else Swap1(x) }
  function Grev2(x: Word, k: Word): Word { if k & 2 == 0 then x else Swap2(x) }
  function Grev4(x: Word, k: Word): Word { if k & 4 == 0 then x else Swap4(x) }
  function Grev8(x: Word, k: Word): Word { if k & 8 == 0 then x else Swap8(x) }
  function Grev16(x: Word, k: Word): Word { if k & 16 == 0 then x else Swap16(x) }

  function Grev(x: Word, k: Word): Word {
    Grev16(Grev8(Grev4(Grev2(Grev1(x, k), k), k), k), k)
  }

  /** One stage of `shfli`: exchange the two middle quarters of every block of 4, 8, 16 or 32 bits. */
  function Middle1(x: Word, k: Word): Word {
    if k & 1 == 0 then x else (x & 0x9999_9999) | ((x << 1) & 0x4444_4444) | ((x >> 1) & 0x2222_2222)
  }

  function Middle2(x: Word, k: Word): Word {
    if k & 2 == 0 then x else (x & 0xC3C3_C3C3) | ((x << 2) & 0x3030_3030) | ((x >> 2) & 0x0C0C_0C0C)
  }

  function Middle4(x: Word, k: Word): Word {
    if k & 4 == 0 then x else (x & 0xF00F_F00F) | ((x << 4) & 0x0F00_0F00) | ((x >> 4) & 0x00F0_00F0)
  }

  function Middle8(x: Word, k: Word): Word {
    if k & 8 == 0 then x else (x & 0xFF00_00FF) | ((x << 8) & 0x00FF_0000) | ((x >> 8) & 0x0000_FF00)
  }

  function Shfl(x: Word, k: Word): Word {
    Middle1(Middle2(Middle4(Middle8(x, k), k), k), k)
  }

  function Unshfl(x: Word, k: Word): Word {
    Middle8(Middle4(Middle2(Middle1(x, k), k), k), k)
  }

  // ---------------------------------------------------------------- reversals

  predicate Bit(x: Word, i: Word)
    requires i < 32
  {
    x & (1 << i) != 0
  }

  /** Where bit `i` of a reversal comes from: the mirrored group of its unit, same place in the group. */
  function Mirrored(group: Word, unit: Word, i: Word): Word
    requires IsRev(group, unit)
  {
    var offset := i & (unit - 1);
    var low := i & (group - 1);
    i - offset + (unit - group - (offset - low)) + low
  }

  lemma SwapBit1(x: Word, i: Word)
    requires i < 32
    ensures i ^ 1 < 32 && Bit(Swap1(x), i) == Bit(x, i ^ 1)
  {
  }

  lemma SwapBit2(x: Word, i: Word)
    requires i < 32
    ensures i ^ 2 < 32 && Bit(Swap2(x), i) == Bit(x, i ^ 2)
  {
  }

  lemma SwapBit4(x: Word, i: Word)
    requires i < 32
    ensures i ^ 4 < 32 && Bit(Swap4(x), i) == Bit(x, i ^ 4)
  {
  }

  lemma SwapBit8(x: Word, i: Word)
    requires i < 32
    ensures i ^ 8 < 32 && Bit(Swap8(x), i) == Bit(x, i ^ 8)
  {
  }

  lemma SwapBit16(x: Word, i: Word)
    requires i < 32
    ensures i ^ 16 < 32 && Bit(Swap16(x), i) == Bit(x, i ^ 16)
  {
  }

  /** Bit `i` of `y` is bit `i ^ m` of `x`. */
  ghost predicate Moved(x: Word, y: Word, m: Word) {
    m < 32 && forall i: Word :: i < 32 ==> i ^ m < 32 && Bit(y, i) == Bit(x, i ^ m)
  }

  lemma GrevMoves1(x: Word, k: Word)
    ensures Moved(x, Grev1(x, k), k & 1)
  {
    forall i: Word | i < 32
      ensures i ^ (k & 1) < 32 && Bit(Grev1(x, k), i) == Bit(x, i ^ (k & 1))
    {
      SwapBit1(x, i);
      assert k & 1 == 0 || k & 1 == 1;
    }
  }

  lemma GrevMoves2(x: Word, k: Word)
    ensures Moved(x, Grev2(x, k), k & 2)
  {
    forall i: Word | i < 32
      ensures i ^ (k & 2) < 32 && Bit(Grev2(x, k), i) == Bit(x, i ^ (k & 2))
    {
      SwapBit2(x, i);
      assert k & 2 == 0 || k & 2 == 2;
    }
  }

  lemma GrevMoves4(x: Word, k: Word)
    ensures Moved(x, Grev4(x, k), k & 4)
  {
    forall i: Word | i < 32
      ensures i ^ (k & 4) < 32 && Bit(Grev4(x, k), i) == Bit(x, i ^ (k & 4))
    {
      SwapBit4(x, i);
      assert k & 4 == 0 || k & 4 == 4;
    }
  }

  lemma GrevMoves8(x: Word, k: Word)
    ensures Moved(x, Grev8(x, k), k & 8)
  {
    forall i: Word | i < 32
      ensures i ^ (k & 8) < 32 && Bit(Grev8(x, k), i) == Bit(x, i ^ (k & 8))
    {
      SwapBit8(x, i);
      assert k & 8 == 0 || k & 8 == 8;
    }
  }

  lemma GrevMoves16(x: Word, k: Word)
    ensures Moved(x, Grev16(x, k), k & 16)
  {
    forall i: Word | i < 32
      ensures i ^ (k & 16) < 32 && Bit(Grev16(x, k), i) == Bit(x, i ^ (k & 16))
    {
      SwapBit16(x, i);
      assert k & 16 == 0 || k & 16 == 16;
    }
  }

  lemma MovedTwice(x: Word, y: Word, z: Word, m: Word, n: Word)
    requires Moved(x, y, m) && Moved(y, z, n)
    ensures Moved(x, z, m ^ n)
  {
    forall i: Word | i < 32
      ensures i ^ (m ^ n) < 32 && Bit(z, i) == Bit(x, i ^ (m ^ n))
    {
      assert Bit(z, i) == Bit(y, i ^ n);
      assert (i ^ n) ^ m == i ^ (m ^ n);
    }
  }

  lemma XorStages(k: Word)
    requires k < 32
    ensures (k & 1) ^ (k & 2) ^ (k & 4) ^ (k & 8) ^ (k & 16) == k
  {
  }

  /** `grevi` moves bit `i ^ k` to bit `i`. */
  lemma GrevMoves(x: Word, k: Word)
    requires k < 32
    ensures Moved(x, Grev(x, k), k)
  {
    var a := Grev1(x, k);
    var b := Grev2(a, k);
    var c := Grev4(b, k);
    var d := Grev8(c, k);
    GrevMoves1(x, k);
    GrevMoves2(a, k);
    MovedTwice(x, a, b, k & 1, k & 2);
    GrevMoves4(b, k);
    MovedTwice(x, b, c, (k & 1) ^ (k & 2), k & 4);
    GrevMoves8(c, k);
    MovedTwice(x, c, d, (k & 1) ^ (k & 2) ^ (k & 4), k & 8);
    GrevMoves16(d, k);
    MovedTwice(x, d, Grev16(d, k), (k & 1) ^ (k & 2) ^ (k & 4) ^ (k & 8), k & 16);
    XorStages(k);
  }

  lemma MirroredIsXor(group: Word, unit: Word, i: Word)
    requires IsRev(group, unit) && i < 32
    ensures RevAmount(group, unit) < 32 && Mirrored(group, unit, i) == i ^ RevAmount(group, unit)
  {
  }

  /** A `rev` reverses the order of the groups within every unit its name gives. */
  lemma ReversesGroups(group: Word, unit: Word, x: Word, i: Word)
    requires IsRev(group, unit) && i < 32
    ensures Mirrored(group, unit, i) < 32
    ensures Bit(Grev(x, RevAmount(group, unit)), i) == Bit(x, Mirrored(group, unit, i))
  {
    MirroredIsXor(group, unit, i);
    GrevMoves(x, RevAmount(group, unit));
  }

  // ---------------------------------------------------------------- interleavings

  /** Where bit `i` of an interleaving comes from: even groups from the low half, odd ones from the high. */
  function Interleaved(group: Word, unit: Word, i: Word): Word
    requires IsZip(group, unit)
  {
    var offset := i & (unit - 1);
    var low := i & (group - 1);
    var odd := i & group;
    i - offset + (if odd != 0 then unit >> 1 else 0) + ((offset - low - odd) >> 1) + low
  }

  /** Index `i` with digits `p` and `q` exchanged where `k` says so. */
  function Exchanged(i: Word, k: Word, p: Word, q: Word): Word {
    if k & p == 0 then i
    else (i & !(p | q)) | (if i & p != 0 then q else 0) | (if i & q != 0 then p else 0)
  }

  lemma MiddleBit1(x: Word, k: Word, i: Word)
    requires i < 32
    ensures Exchanged(i, k, 1, 2) < 32 && Bit(Middle1(x, k), i) == Bit(x, Exchanged(i, k, 1, 2))
  {
  }

  lemma MiddleBit2(x: Word, k: Word, i: Word)
    requires i < 32
    ensures Exchanged(i, k, 2, 4) < 32 && Bit(Middle2(x, k), i) == Bit(x, Exchanged(i, k, 2, 4))
  {
  }

  lemma MiddleBit4(x: Word, k: Word, i: Word)
    requires i < 32
    ensures Exchanged(i, k, 4, 8) < 32 && Bit(Middle4(x, k), i) == Bit(x, Exchanged(i, k, 4, 8))
  {
  }

  lemma MiddleBit8(x: Word, k: Word, i: Word)
    requires i < 32
    ensures Exchanged(i, k, 8, 16) < 32 && Bit(Middle8(x, k), i) == Bit(x, Exchanged(i, k, 8, 16))
  {
  }

  /** Where `shfli` by `k` takes bit `i` from. */
  function ShuffleIndex(i: Word, k: Word): Word {
    Exchanged(Exchanged(Exchanged(Exchanged(i, k, 1, 2), k, 2, 4), k, 4, 8), k, 8, 16)
  }

  lemma ShflBit(x: Word, k: Word, i: Word)
    requires i < 32
    ensures ShuffleIndex(i, k) < 32 && Bit(Shfl(x, k), i) == Bit(x, ShuffleIndex(i, k))
  {
    var a := Middle8(x, k);
    var b := Middle4(a, k);
    var c := Middle2(b, k);
    MiddleBit1(c, k, i);
    var ic := Exchanged(i, k, 1, 2);
    MiddleBit2(b, k, ic);
    var ib := Exchanged(ic, k, 2, 4);
    MiddleBit4(a, k, ib);
    var ia := Exchanged(ib, k, 4, 8);
    MiddleBit8(x, k, ia);
  }

  lemma InterleavedIsShuffled(group: Word, unit: Word, i: Word)
    requires IsZip(group, unit) && i < 32
    ensures Interleaved(group, unit, i) == ShuffleIndex(i, ZipAmount(group, unit))
  {
    if unit == 32 {
      InterleavedWord(group, i);
    } else if unit == 16 {
      InterleavedHalf(group, i);
    } else {
      InterleavedSmall(group, unit, i);
    }
  }

  lemma InterleavedWord(group: Word, i: Word)
    requires IsZip(group, 32) && i < 32
    ensures Interleaved(group, 32, i) == ShuffleIndex(i, ZipAmount(group, 32))
  {
    assert group == 8 || group == 4 || group == 2 || group == 1;
  }

  lemma InterleavedHalf(group: Word, i: Word)
    requires IsZip(group, 16) && i < 32
    ensures Interleaved(group, 16, i) == ShuffleIndex(i, ZipAmount(group, 16))
  {
    assert group == 4 || group == 2 || group == 1;
  }

  lemma InterleavedSmall(group: Word, unit: Word, i: Word)
    requires IsZip(group, unit) && unit <= 8 && i < 32
    ensures Interleaved(group, unit, i) == ShuffleIndex(i, ZipAmount(group, unit))
  {
    assert (unit == 8 && (group == 2 || group == 1)) || (unit == 4 && group == 1);
  }

  /** A `zip` interleaves the groups of the two halves of every unit its name gives. */
  lemma Interleaves(group: Word, unit: Word, x: Word, i: Word)
    requires IsZip(group, unit) && i < 32
    ensures Interleaved(group, unit, i) < 32
    ensures Bit(Shfl(x, ZipAmount(group, unit)), i) == Bit(x, Interleaved(group, unit, i))
  {
    InterleavedIsShuffled(group, unit, i);
    ShflBit(x, ZipAmount(group, unit), i);
  }

  lemma Middle1Twice(x: Word, k: Word)
    ensures Middle1(Middle1(x, k), k) == x
  {
  }

  lemma Middle2Twice(x: Word, k: Word)
    ensures Middle2(Middle2(x, k), k) == x
  {
  }

  lemma Middle4Twice(x: Word, k: Word)
    ensures Middle4(Middle4(x, k), k) == x
  {
  }

  lemma Middle8Twice(x: Word, k: Word)
    ensures Middle8(Middle8(x, k), k) == x
  {
  }

  /** Whatever the immediate, so for every `zip` and its `unzip`, each undoes the other. */
  lemma ShuffleInverse(x: Word, k: Word)
    ensures Unshfl(Shfl(x, k), k) == x
    ensures Shfl(Unshfl(x, k), k) == x
  {
    var a := Middle8(x, k);
    var b := Middle4(a, k);
    Middle8Twice(x, k);
    Middle4Twice(a, k);
    Middle2Twice(b, k);
    Middle1Twice(Middle2(b, k), k);
    var p := Middle1(x, k);
    var q := Middle2(p, k);
    Middle1Twice(x, k);
    Middle2Twice(p, k);
    Middle4Twice(q, k);
    Middle8Twice(Middle4(q, k), k);
  }
}
