/**
 * The counter loop (pygen/pygen_src/riscv_loop_instr.py): its constraint, the loop it is meant for, and the
 * loop that is built.
 */
module LoopInstr {
  import opened Words

  datatype BranchType = BEQ | BNE | BLT | BGE | BLTU | BGEU | C_BEQZ | C_BNEZ

  predicate Compressed(b: BranchType) {
    b == C_BEQZ || b == C_BNEZ
  }

  /** `loop_c` for one loop. */
  predicate LoopC(b: BranchType, init: int, step: int, limit: int) {
    && (if Compressed(b) then limit == 0 else -20 <= limit <= 20)
    && -10 <= init <= 10 && -10 <= step <= 10
    && (if init < limit then step > 0 else step < 0)
    && (match b
        case C_BNEZ | C_BEQZ | BEQ | BNE => limit != init && (limit - init) % step == 0
        case BGE => step < 0
        case BGEU => step < 0 && init > 0 && step + limit > 0
        case BLT => step > 0
        case BLTU => step > 0 && limit > 0)
  }

  /** `legal_loop_regs_c` and the register part of `loop_c`: nothing keeps the two registers apart. */
  predicate LegalRegs(b: BranchType, cnt: nat, lim: nat) {
    && 0 < cnt < 32 && lim < 32
    && if Compressed(b) then lim == 0 else lim != 0
  }

  // ---------------------------------------------------------------- XLEN-bit registers

  /** Whether the branch is taken on two register words. */
  predicate Taken(xlen: nat, b: BranchType, x: int, y: int) {
    match b
    case BEQ => x == y
    case BNE => x != y
    case BLT => Signed(xlen, x) < Signed(xlen, y)
    case BGE => Signed(xlen, x) >= Signed(xlen, y)
    case BLTU => x < y
    case BGEU => x >= y
    case C_BEQZ => x == 0
    case C_BNEZ => x != 0
  }

  predicate Small(v: int) {
    -100 <= v <= 100
  }

  /** The same on the small numbers the registers stand for. */
  predicate TakenOn(b: BranchType, v: int, limit: int) {
    match b
    case BEQ => v == limit
    case BNE => v != limit
    case BLT => v < limit
    case BGE => v >= limit
    case BLTU => if v < 0 then limit < 0 && v < limit else limit < 0 || v < limit
    case BGEU => if v < 0 then limit >= 0 || v >= limit else limit >= 0 && v >= limit
    case C_BEQZ => v == 0
    case C_BNEZ => v != 0
  }

  lemma SmallWord(xlen: nat, v: int)
    requires IsXlen(xlen) && Small(v)
    ensures Word(xlen, v) == if v < 0 then v + Modulus(xlen) else v
  {
  }

  lemma TakenMatches(xlen: nat, b: BranchType, v: int, limit: int)
    requires IsXlen(xlen) && Small(v) && Small(limit)
    ensures Taken(xlen, b, Word(xlen, v), Word(xlen, limit)) == TakenOn(b, v, limit)
  {
    SmallWord(xlen, v);
    SmallWord(xlen, limit);
  }

  // ---------------------------------------------------------------- how often the loop goes round

  /** What holds of the counter each time the loop is (re-)entered. */
  predicate Looping(b: BranchType, v: int, step: int, limit: int) {
    && -10 <= step <= 10 && step != 0 && -20 <= limit <= 20 && -30 <= v <= 30
    && match b
       case C_BNEZ | BNE =>
         v != limit && (limit - v) % step == 0 && (v < limit <==> step > 0) && (b == C_BNEZ ==> limit == 0)
       case C_BEQZ | BEQ => (b == C_BEQZ ==> limit == 0) && (v == limit || -10 <= v <= 10)
       case BLT => step > 0 && v < limit
       case BGE => step < 0 && v >= limit
       case BLTU => step > 0 && limit > 0 && v < limit
       case BGEU => step < 0 && v >= limit && step + limit > 0
  }

  lemma LoopCEnters(b: BranchType, init: int, step: int, limit: int)
    requires LoopC(b, init, step, limit)
    ensures Looping(b, init, step, limit)
  {
  }

  lemma StepOff(a: int, s: int)
    requires s != 0 && a % s == 0
    ensures (a - s) % s == 0 && (a - s) / s == a / s - 1
  {
    var q := a / s;
    assert a == s * q;
    assert a - s == s * (q - 1);
    Quotient(a - s, s, q - 1);
  }

  lemma Quotient(a: int, s: int, q: int)
    requires s != 0 && a == s * q
    ensures a % s == 0 && a / s == q
  {
    var p, r := a / s, a % s;
    assert a == s * p + r;
    assert s * (q - p) == r;
    if p != q {
      if s > 0 {
        if q > p {
          Scale(s, q - p);
        } else {
          Scale(s, p - q);
        }
      } else {
        if q > p {
          Scale(-s, q - p);
        } else {
          Scale(-s, p - q);
        }
      }
    }
  }

  lemma Scale(s: int, k: int)
    requires s > 0 && k >= 1
    ensures s * k >= s
  {
  }

  lemma NoOvershoot(b: BranchType, v: int, step: int, limit: int)
    requires Looping(b, v, step, limit) && TakenOn(b, v + step, limit)
    ensures Looping(b, v + step, step, limit)
    ensures b in {BNE, C_BNEZ} ==> (limit - (v + step)) / step == (limit - v) / step - 1
  {
    if b in {BNE, C_BNEZ} {
      NotEqualStep(v, step, limit);
    }
  }

  lemma NotEqualStep(v: int, step: int, limit: int)
    requires step != 0 && (limit - v) % step == 0 && (v < limit <==> step > 0) && v + step != limit && v != limit
    ensures (limit - (v + step)) % step == 0 && (limit - (v + step)) / step == (limit - v) / step - 1
    ensures v + step < limit <==> step > 0
  {
    StepOff(limit - v, step);
    var q := (limit - v) / step;
    assert limit - v == step * q;
    NoMultipleBetween(step, q);
  }

  lemma NoMultipleBetween(s: int, q: int)
    requires s != 0
    ensures s > 0 ==> !(0 < s * q < s)
    ensures s < 0 ==> !(s < s * q < 0)
  {
    if q > 1 {
      Scale(if s > 0 then s else -s, q);
    } else if q < 0 {
      Scale(if s > 0 then s else -s, -q);
    }
  }

  /** The limit is `n` steps from the start. */
  predicate StepsAway(init: int, step: int, limit: int, n: nat) {
    limit == init + n * step
  }

  /** The limit is a whole number of steps, at least one, from the start. */
  ghost predicate MeetsLimit(init: int, step: int, limit: int) {
    exists n: nat :: n >= 1 && StepsAway(init, step, limit, n)
  }

  lemma MeetsWhenDivisible(init: int, step: int, limit: int)
    requires step != 0
    ensures MeetsLimit(init, step, limit) <==>
            limit != init && (limit - init) % step == 0 && (init < limit <==> step > 0)
  {
    if n: nat :| n >= 1 && StepsAway(init, step, limit, n) {
      Quotient(limit - init, step, n);
      StepSign(step, n);
    }
    if limit != init && (limit - init) % step == 0 && (init < limit <==> step > 0) {
      var q := (limit - init) / step;
      assert limit - init == step * q;
      WholeSteps(step, q);
      assert StepsAway(init, step, limit, q);
    }
  }

  /**
   * Which loops the constraint admits: for the equality branches those whose counter meets the limit after a whole
   * number of steps, at least one; for the others those that step towards a limit not yet passed, and for the
   * unsigned ones on the positive side of zero only.
   */
  lemma LoopCMeaning(b: BranchType, init: int, step: int, limit: int)
    ensures LoopC(b, init, step, limit) <==>
            && -10 <= init <= 10 && -10 <= step <= 10 && -20 <= limit <= 20
            && (b in {C_BEQZ, C_BNEZ} ==> limit == 0)
            && (if b == BLT then init < limit && 0 < step
                else if b == BLTU then init < limit && 0 < step && 0 < limit
                else if b == BGE then init >= limit && step < 0
                else if b == BGEU then init >= limit && step < 0 && 0 < limit + step
                else step != 0 && MeetsLimit(init, step, limit))
  {
    if step != 0 {
      MeetsWhenDivisible(init, step, limit);
    }
  }

  lemma StepSign(s: int, n: nat)
    requires s != 0 && n >= 1
    ensures s > 0 <==> n * s > 0
    ensures s < 0 <==> n * s < 0
  {
    Scale(if s > 0 then s else -s, n);
  }

  lemma WholeSteps(s: int, q: int)
    requires s != 0 && (s > 0 ==> s * q > 0) && (s < 0 ==> s * q < 0)
    ensures q >= 1
  {
    if q < 0 {
      Scale(if s > 0 then s else -s, -q);
    }
  }

  function Far(b: BranchType, v: int, step: int, limit: int): nat {
    match b
    case C_BEQZ | BEQ => if v + step == limit then 1 else 0
    case _ => if v < limit then limit - v else if step < 0 then v - limit + 1 else 0
  }

  /** How many times the body runs from counter value `v` on. */
  function Passes(b: BranchType, v: int, step: int, limit: int): (n: nat)
    requires Looping(b, v, step, limit)
    ensures n >= 1
    decreases Far(b, v, step, limit)
  {
    if !TakenOn(b, v + step, limit) then 1
    else
      NoOvershoot(b, v, step, limit);
      1 + Passes(b, v + step, step, limit)
  }

  lemma {:induction false} PassesOfBne(b: BranchType, v: int, step: int, limit: int)
    requires Looping(b, v, step, limit) && b in {BNE, C_BNEZ}
    ensures Passes(b, v, step, limit) == (limit - v) / step
    decreases Far(b, v, step, limit)
  {
    if TakenOn(b, v + step, limit) {
      NoOvershoot(b, v, step, limit);
      PassesOfBne(b, v + step, step, limit);
    } else {
      Quotient(limit - v, step, 1);
    }
  }

  lemma PassesOfBeq(b: BranchType, v: int, step: int, limit: int)
    requires Looping(b, v, step, limit) && b in {BEQ, C_BEQZ}
    ensures Passes(b, v, step, limit) == if v + step == limit then 2 else 1
  {
    if v + step == limit {
      NoOvershoot(b, v, step, limit);
      assert Passes(b, v, step, limit) == 1 + Passes(b, limit, step, limit);
    }
  }
}
