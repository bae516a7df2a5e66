/** Bit strings as the generators hold them: most significant bit first, as `bitstring.BitArray` indexes them. */
module Bits {
  type BitString = seq<bool>

  function Pow2(n: nat): (r: nat)
    ensures r > 0
  {
    if n == 0 then 1 else 2 * Pow2(n - 1)
  }

  function Zeros(len: nat): (r: BitString)
    ensures |r| == len
    ensures forall k :: 0 <= k < len ==> !r[k]
  {
    seq(len, _ => false)
  }

  function Ones(len: nat): (r: BitString)
    ensures |r| == len
    ensures forall k :: 0 <= k < len ==> r[k]
  {
    seq(len, _ => true)
  }

  function And(a: BitString, b: BitString): (r: BitString)
    requires |a| == |b|
    ensures |r| == |a|
    ensures forall k :: 0 <= k < |a| ==> r[k] == (a[k] && b[k])
  {
    seq(|a|, k requires 0 <= k < |a| => a[k] && b[k])
  }

  function Or(a: BitString, b: BitString): (r: BitString)
    requires |a| == |b|
    ensures |r| == |a|
    ensures forall k :: 0 <= k < |a| ==> r[k] == (a[k] || b[k])
  {
    seq(|a|, k requires 0 <= k < |a| => a[k] || b[k])
  }

  function Not(a: BitString): (r: BitString)
    ensures |r| == |a|
    ensures forall k :: 0 <= k < |a| ==> r[k] == !a[k]
  {
    seq(|a|, k requires 0 <= k < |a| => !a[k])
  }

  /** The `.uint` view of a bit string. */
  function ToNat(b: BitString): (v: nat)
    ensures v < Pow2(|b|)
  {
    if b == [] then 0
    else 2 * ToNat(b[..|b| - 1]) + (if b[|b| - 1] then 1 else 0)
  }

  /** `BitArray(uint = v, length = len)`, which the library accepts only when `v` fits. */
  function FromNat(v: nat, len: nat): (b: BitString)
    requires v < Pow2(len)
    ensures |b| == len
  {
    if len == 0 then [] else FromNat(v / 2, len - 1) + [v % 2 == 1]
  }

  /** Bit `i` of a number, bit 0 being the least significant. */
  predicate NatBit(v: nat, i: nat) {
    (v / Pow2(i)) % 2 == 1
  }

  lemma {:induction false} FromNatToNat(b: BitString)
    ensures FromNat(ToNat(b), |b|) == b
  {
    if b == [] {
    } else {
      FromNatToNat(b[..|b| - 1]);
    }
  }

  lemma {:induction false} ToNatFromNat(v: nat, len: nat)
    requires v < Pow2(len)
    ensures ToNat(FromNat(v, len)) == v
  {
    if len == 0 {
    } else {
      ToNatFromNat(v / 2, len - 1);
      assert FromNat(v, len)[..len - 1] == FromNat(v / 2, len - 1);
    }
  }

  lemma {:induction false} HalfThenShift(v: nat, i: nat)
    ensures (v / 2) / Pow2(i) == v / Pow2(i + 1)
  {
    var p := Pow2(i);
    var q := v / (2 * p);
    var r := v % (2 * p);
    assert v == 2 * p * q + r;
    assert v / 2 == p * q + r / 2;
    assert 0 <= r / 2 < p;
    DivUnique(v / 2, p, q, r / 2);
  }

  lemma MulMonotone(p: nat, x: int, y: int)
    requires x <= y
    ensures p * x <= p * y
  {
    var d := y - x;
    assert p * y == p * x + p * d;
  }

  lemma DivUnique(a: nat, p: nat, q: nat, r: nat)
    requires p > 0 && a == p * q + r && r < p
    ensures a / p == q && a % p == r
  {
    var q' := a / p;
    assert a == p * q' + a % p;
    if q' < q {
      MulMonotone(p, q' + 1, q);
    } else if q' > q {
      MulMonotone(p, q + 1, q');
    }
  }

  lemma {:induction false} FromNatBit(v: nat, len: nat, i: nat)
    requires v < Pow2(len) && i < len
    ensures FromNat(v, len)[len - 1 - i] == NatBit(v, i)
  {
    if i == 0 {
    } else {
      FromNatBit(v / 2, len - 1, i - 1);
      HalfThenShift(v, i - 1);
    }
  }

  lemma {:induction false} PowSum(m: nat, n: nat)
    ensures Pow2(m + n) == Pow2(m) * Pow2(n)
  {
    if m == 0 {
    } else {
      PowSum(m - 1, n);
      assert Pow2(m) * Pow2(n) == 2 * (Pow2(m - 1) * Pow2(n));
    }
  }

  /** Bitwise or of naturals. */
  function BitOr(a: nat, b: nat): nat {
    if a == 0 then b
    else if b == 0 then a
    else 2 * BitOr(a / 2, b / 2) + (if a % 2 == 1 || b % 2 == 1 then 1 else 0)
  }

  lemma {:induction false} OrOfShifted(a: nat, n: nat, b: nat)
    requires b < Pow2(n)
    ensures BitOr(a * Pow2(n), b) == a * Pow2(n) + b
  {
    if a == 0 || b == 0 {
    } else {
      var p := Pow2(n - 1);
      assert a * Pow2(n) == 2 * (a * p);
      OrOfShifted(a, n - 1, b / 2);
      assert (a * Pow2(n)) / 2 == a * p && (a * Pow2(n)) % 2 == 0;
    }
  }
}
