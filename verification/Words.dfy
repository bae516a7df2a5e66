/** XLEN-bit register words as numbers, for the two hart widths. */
module Words {
  import opened Bits

  predicate IsXlen(xlen: nat) {
    xlen == 32 || xlen == 64
  }

  /** 2^XLEN. */
  function Modulus(xlen: nat): (m: nat)
    ensures m > 0
  {
    if xlen == 32 then 0x1_0000_0000 else 0x1_0000_0000_0000_0000
  }

  /** The word an arithmetic result leaves in a register. */
  function Word(xlen: nat, v: int): int {
    v % Modulus(xlen)
  }

  /** A word read as a two's-complement number. */
  function Signed(xlen: nat, w: int): int {
    if 2 * w < Modulus(xlen) then w else w - Modulus(xlen)
  }

  lemma DivisibleBy(v: int, m: nat, q: int)
    requires m > 0 && v == m * q
    ensures v % m == 0
  {
    var r := v % m;
    assert v == m * (v / m) + r;
    if q > v / m {
      MulMonotone(m, v / m + 1, q);
    } else if q < v / m {
      MulMonotone(m, q + 1, v / m);
    }
  }

  /** `r` is the number of the given range that agrees with `v` modulo `m`. */
  predicate Wraps(v: int, r: int, low: int, m: nat) {
    m > 0 && low <= r < low + m && (v - r) % m == 0
  }

  /** A word is the result modulo 2^XLEN, and its signed reading the same in the range around zero. */
  lemma WordMeaning(xlen: nat, v: int)
    requires IsXlen(xlen)
    ensures Wraps(v, Word(xlen, v), 0, Pow2(xlen))
    ensures Wraps(v, Signed(xlen, Word(xlen, v)), 0 - Pow2(xlen - 1), Pow2(xlen))
  {
    var m := Modulus(xlen);
    ModulusIsPow(xlen);
    assert v == m * (v / m) + v % m;
    DivisibleBy(v - v % m, m, v / m);
    DivisibleBy(v - v % m + m, m, v / m + 1);
  }

  lemma ModulusIsPow(xlen: nat)
    requires IsXlen(xlen)
    ensures Modulus(xlen) == Pow2(xlen)
  {
    Pow32();
    if xlen == 64 {
      PowSum(32, 32);
    }
  }

  lemma Pow32()
    ensures Pow2(32) == 0x1_0000_0000
  {
    assert Pow2(2) == 4;
    PowSum(2, 2);
    PowSum(4, 4);
    PowSum(8, 8);
    PowSum(16, 16);
  }
}
