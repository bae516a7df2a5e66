/**
 * Running the counter loop: the one its constraint is written for, the one with shared registers, and the one
 * that is built.
 */
module LoopRuns {
  import opened Words
  import opened LoopInstr

  /** `Other` is any instruction that writes one register; `Branch` goes back to a position of the list. */
  datatype LoopAsm =
    | Addi(rd: nat, rs1: nat, imm: int)
    | Other(rd: nat, f: (nat -> int) -> int)
    | Branch(b: BranchType, rs1: nat, rs2: nat, back: nat)

  datatype St = St(pc: nat, regs: nat -> int)

  function Get(regs: nat -> int, r: nat): int {
    if r == 0 then 0 else regs(r)
  }

  function Set(regs: nat -> int, r: nat, v: int): nat -> int {
    (x: nat) => if x == r then v else regs(x)
  }

  function Step(xlen: nat, code: seq<LoopAsm>, s: St): St
    requires IsXlen(xlen)
  {
    if s.pc >= |code| then s
    else match code[s.pc]
      case Addi(rd, rs1, imm) => St(s.pc + 1, Set(s.regs, rd, Word(xlen, Get(s.regs, rs1) + imm)))
      case Other(rd, f) => St(s.pc + 1, Set(s.regs, rd, f(s.regs)))
      case Branch(b, rs1, rs2, back) =>
        if Taken(xlen, b, Get(s.regs, rs1), Get(s.regs, rs2)) then s.(pc := back) else s.(pc := s.pc + 1)
  }

  function Run(xlen: nat, code: seq<LoopAsm>, s: St, n: nat): St
    requires IsXlen(xlen)
    decreases n
  {
    if n == 0 then s else Run(xlen, code, Step(xlen, code, s), n - 1)
  }

  predicate ReachedAfter(xlen: nat, code: seq<LoopAsm>, s: St, pc: nat, n: nat)
    requires IsXlen(xlen)
  {
    Run(xlen, code, s, n).pc == pc
  }

  /** Control gets to position `pc` at some time. */
  ghost predicate Reaches(xlen: nat, code: seq<LoopAsm>, s: St, pc: nat)
    requires IsXlen(xlen)
  {
    exists n: nat :: ReachedAfter(xlen, code, s, pc, n)
  }

  lemma {:induction false} RunSplit(xlen: nat, code: seq<LoopAsm>, s: St, n: nat, k: nat)
    requires IsXlen(xlen)
    ensures Run(xlen, code, s, n + k) == Run(xlen, code, Run(xlen, code, s, n), k)
    decreases n
  {
    if n == 0 {
    } else {
      RunSplit(xlen, code, Step(xlen, code, s), n - 1, k);
    }
  }

  /** The counter and limit registers stand for `v` and `limit`. */
  predicate Holds(xlen: nat, cnt: nat, lim: nat, v: int, limit: int, regs: nat -> int)
    requires IsXlen(xlen)
  {
    Get(regs, cnt) == Word(xlen, v) && Get(regs, lim) == Word(xlen, limit)
  }

  lemma WordSum(xlen: nat, v: int, d: int)
    requires IsXlen(xlen) && Small(v) && Small(d)
    ensures Word(xlen, Word(xlen, v) + d) == Word(xlen, v + d)
  {
    SmallWord(xlen, v);
    if v < 0 {
      assert Word(xlen, v + Modulus(xlen) + d) == Word(xlen, v + d);
    }
  }

  // ---------------------------------------------------------------- straight code

  /** An instruction that writes neither of the loop's registers. */
  predicate LegalTarget(cnt: nat, lim: nat, target: LoopAsm) {
    target.Other? && target.rd != cnt && target.rd != lim
  }

  /** From `i` up to `j` no instruction writes the loop's registers. */
  ghost predicate Quiet(code: seq<LoopAsm>, cnt: nat, lim: nat, i: nat, j: nat) {
    i <= j <= |code| && forall k :: i <= k < j ==> LegalTarget(cnt, lim, code[k])
  }

  lemma {:induction false} QuietRun(xlen: nat, code: seq<LoopAsm>, cnt: nat, lim: nat, s: St, j: nat)
    requires IsXlen(xlen) && Quiet(code, cnt, lim, s.pc, j)
    ensures var t := Run(xlen, code, s, j - s.pc);
            t.pc == j && Get(t.regs, cnt) == Get(s.regs, cnt) && Get(t.regs, lim) == Get(s.regs, lim)
    decreases j - s.pc
  {
    if s.pc == j {
    } else {
      assert LegalTarget(cnt, lim, code[s.pc]);
      QuietRun(xlen, code, cnt, lim, Step(xlen, code, s), j);
    }
  }

  /** `Run` for a stretch that changes nothing and then one instruction more. */
  lemma QuietThenStep(xlen: nat, code: seq<LoopAsm>, cnt: nat, lim: nat, s: St, j: nat)
    requires IsXlen(xlen) && Quiet(code, cnt, lim, s.pc, j)
    ensures var t := Run(xlen, code, s, j - s.pc);
            && t.pc == j && Get(t.regs, cnt) == Get(s.regs, cnt) && Get(t.regs, lim) == Get(s.regs, lim)
            && Run(xlen, code, s, j - s.pc + 1) == Step(xlen, code, t)
  {
    QuietRun(xlen, code, cnt, lim, s, j);
    var t := Run(xlen, code, s, j - s.pc);
    RunSplit(xlen, code, s, j - s.pc, 1);
    assert Run(xlen, code, t, 1) == Run(xlen, code, Step(xlen, code, t), 0);
  }

  /** From `i` up to `j` there is no branch. */
  ghost predicate Straight(code: seq<LoopAsm>, i: nat, j: nat) {
    i <= j <= |code| && forall k :: i <= k < j ==> !code[k].Branch?
  }

  lemma {:induction false} StraightRun(xlen: nat, code: seq<LoopAsm>, s: St, j: nat)
    requires IsXlen(xlen) && Straight(code, s.pc, j)
    ensures Run(xlen, code, s, j - s.pc).pc == j
    decreases j - s.pc
  {
    if s.pc == j {
    } else {
      StraightRun(xlen, code, Step(xlen, code, s), j);
    }
  }

  /** Where no branch follows, what is reached goes on to the end. */
  lemma GoesOn(xlen: nat, code: seq<LoopAsm>, s: St, n: nat)
    requires IsXlen(xlen) && Straight(code, Run(xlen, code, s, n).pc, |code|)
    ensures Reaches(xlen, code, s, |code|)
  {
    var t := Run(xlen, code, s, n);
    StraightRun(xlen, code, t, |code|);
    RunSplit(xlen, code, s, n, |code| - t.pc);
    assert ReachedAfter(xlen, code, s, |code|, n + (|code| - t.pc));
  }

  // ---------------------------------------------------------------- the loop's own instructions

  /** What is drawn for one loop. */
  datatype Loop = Loop(b: BranchType, cnt: nat, lim: nat, init: int, step: int, limit: int)

  /** The constraints on one loop, with a register each for the counter and the limit. */
  predicate LegalLoop(l: Loop) {
    LoopC(l.b, l.init, l.step, l.limit) && LegalRegs(l.b, l.cnt, l.lim) && l.cnt != l.lim
  }

  /** Counter and limit are set, at `i` and `j`, on the way to the branch target at `t`. */
  ghost predicate SetUp(code: seq<LoopAsm>, i: nat, j: nat, t: nat, l: Loop) {
    && i < j < t < |code|
    && code[i] == Addi(l.cnt, 0, l.init) && code[j] == Addi(l.lim, 0, l.limit)
    && Quiet(code, l.cnt, l.lim, 0, i) && Quiet(code, l.cnt, l.lim, i + 1, j) && Quiet(code, l.cnt, l.lim, j + 1, t)
  }

  lemma CounterSet(xlen: nat, code: seq<LoopAsm>, i: nat, j: nat, t: nat, l: Loop, regs: nat -> int)
    requires IsXlen(xlen) && SetUp(code, i, j, t, l) && l.cnt > 0
    ensures var s := Run(xlen, code, St(0, regs), i + 1);
            s.pc == i + 1 && Get(s.regs, l.cnt) == Word(xlen, l.init)
  {
    QuietThenStep(xlen, code, l.cnt, l.lim, St(0, regs), i);
  }

  /** Coming in from the start, the counter and limit are set when the branch target is reached. */
  lemma SetUpRun(xlen: nat, code: seq<LoopAsm>, i: nat, j: nat, t: nat, l: Loop, regs: nat -> int)
    requires IsXlen(xlen) && SetUp(code, i, j, t, l) && LegalLoop(l)
    ensures var s := Run(xlen, code, St(0, regs), t);
            s.pc == t && Holds(xlen, l.cnt, l.lim, l.init, l.limit, s.regs)
  {
    var s0 := St(0, regs);
    CounterSet(xlen, code, i, j, t, l, regs);
    var s1 := Run(xlen, code, s0, i + 1);
    QuietThenStep(xlen, code, l.cnt, l.lim, s1, j);
    var s2 := Run(xlen, code, s1, j - i);
    RunSplit(xlen, code, s0, i + 1, j - i);
    QuietRun(xlen, code, l.cnt, l.lim, s2, t);
    RunSplit(xlen, code, s0, j + 1, t - j - 1);
  }

  // ---------------------------------------------------------------- update, then branch

  /** Where the instructions of the loop stand among those they are mixed with. */
  datatype Places = Places(init: nat, limit: nat, target: nat, update: nat, branch: nat)

  predicate InOrder(p: Places) {
    p.init < p.limit < p.target < p.update < p.branch
  }

  /** The loop's instructions stand at `p`; all others before the branch write neither of its registers. */
  ghost predicate MixedLoop(code: seq<LoopAsm>, p: Places, l: Loop) {
    && InOrder(p) && p.branch < |code| && SetUp(code, p.init, p.limit, p.target, l)
    && code[p.update] == Addi(l.cnt, l.cnt, l.step) && code[p.branch] == Branch(l.b, l.cnt, l.lim, p.target)
    && Quiet(code, l.cnt, l.lim, p.target, p.update) && Quiet(code, l.cnt, l.lim, p.update + 1, p.branch)
  }

  /** From the branch target on, the counter is moved on by a step. */
  lemma UpdateRun(xlen: nat, code: seq<LoopAsm>, p: Places, l: Loop, v: int, regs: nat -> int)
    requires IsXlen(xlen) && MixedLoop(code, p, l) && l.cnt > 0 && l.cnt != l.lim
    requires Small(v) && Small(l.step) && Holds(xlen, l.cnt, l.lim, v, l.limit, regs)
    ensures var s := Run(xlen, code, St(p.target, regs), p.update - p.target + 1);
            s.pc == p.update + 1 && Holds(xlen, l.cnt, l.lim, v + l.step, l.limit, s.regs)
  {
    QuietThenStep(xlen, code, l.cnt, l.lim, St(p.target, regs), p.update);
    WordSum(xlen, v, l.step);
  }

  /** Then the branch goes back or lets go. */
  lemma BranchRun(xlen: nat, code: seq<LoopAsm>, p: Places, l: Loop, v: int, regs: nat -> int)
    requires IsXlen(xlen) && MixedLoop(code, p, l) && LegalRegs(l.b, l.cnt, l.lim)
    requires Small(v) && Small(l.limit) && Holds(xlen, l.cnt, l.lim, v, l.limit, regs)
    ensures var s := St(p.update + 1, regs);
            && Run(xlen, code, s, p.branch - p.update - 1).pc == p.branch
            && var t := Run(xlen, code, s, p.branch - p.update);
               && t.pc == (if TakenOn(l.b, v, l.limit) then p.target else p.branch + 1)
               && Holds(xlen, l.cnt, l.lim, v, l.limit, t.regs)
  {
    QuietThenStep(xlen, code, l.cnt, l.lim, St(p.update + 1, regs), p.branch);
    TakenMatches(xlen, l.b, v, l.limit);
  }

  /** Once round. */
  lemma OnePass(xlen: nat, code: seq<LoopAsm>, p: Places, l: Loop, v: int, regs: nat -> int)
    requires IsXlen(xlen) && MixedLoop(code, p, l) && LegalRegs(l.b, l.cnt, l.lim) && l.cnt != l.lim
    requires Looping(l.b, v, l.step, l.limit) && Holds(xlen, l.cnt, l.lim, v, l.limit, regs)
    ensures var s := St(p.target, regs);
            && Run(xlen, code, s, p.branch - p.target).pc == p.branch
            && var t := Run(xlen, code, s, p.branch - p.target + 1);
               && t.pc == (if TakenOn(l.b, v + l.step, l.limit) then p.target else p.branch + 1)
               && Holds(xlen, l.cnt, l.lim, v + l.step, l.limit, t.regs)
  {
    var s0 := St(p.target, regs);
    UpdateRun(xlen, code, p, l, v, regs);
    var s1 := Run(xlen, code, s0, p.update - p.target + 1);
    assert s1 == St(p.update + 1, s1.regs);
    BranchRun(xlen, code, p, l, v + l.step, s1.regs);
    RunSplit(xlen, code, s0, p.update - p.target + 1, p.branch - p.update - 1);
    RunSplit(xlen, code, s0, p.update - p.target + 1, p.branch - p.update);
  }

  lemma {:induction false} PassesRun(xlen: nat, code: seq<LoopAsm>, p: Places, l: Loop, v: int, regs: nat -> int)
    requires IsXlen(xlen) && MixedLoop(code, p, l) && LegalRegs(l.b, l.cnt, l.lim) && l.cnt != l.lim
    requires Looping(l.b, v, l.step, l.limit) && Holds(xlen, l.cnt, l.lim, v, l.limit, regs)
    ensures var s, n := St(p.target, regs), Rounds(p, Passes(l.b, v, l.step, l.limit));
            Run(xlen, code, s, n - 1).pc == p.branch && Run(xlen, code, s, n).pc == p.branch + 1
    decreases Passes(l.b, v, l.step, l.limit)
  {
    OnePass(xlen, code, p, l, v, regs);
    if TakenOn(l.b, v + l.step, l.limit) {
      NoOvershoot(l.b, v, l.step, l.limit);
      var s, d := St(p.target, regs), p.branch - p.target + 1;
      var t, n := Run(xlen, code, s, d), Rounds(p, Passes(l.b, v + l.step, l.step, l.limit));
      assert t == St(p.target, t.regs);
      PassesRun(xlen, code, p, l, v + l.step, t.regs);
      RunSplit(xlen, code, s, d, n);
      RunSplit(xlen, code, s, d, n - 1);
    }
  }

  /** How many instructions `k` times round are. */
  function Rounds(p: Places, k: nat): (n: nat)
    requires InOrder(p)
    ensures k > 0 ==> n >= 1
  {
    if k == 0 then 0 else Rounds(p, k - 1) + (p.branch - p.target + 1)
  }

  /** With the update before the branch, the loop leaves its branch after exactly the computed number of passes. */
  lemma MixedLoopExits(xlen: nat, code: seq<LoopAsm>, p: Places, l: Loop, regs: nat -> int)
    requires IsXlen(xlen) && MixedLoop(code, p, l) && LegalLoop(l)
    ensures Looping(l.b, l.init, l.step, l.limit)
    ensures var s, n := St(0, regs), p.target + Rounds(p, Passes(l.b, l.init, l.step, l.limit));
            Run(xlen, code, s, n - 1).pc == p.branch && Run(xlen, code, s, n).pc == p.branch + 1
  {
    LoopCEnters(l.b, l.init, l.step, l.limit);
    SetUpRun(xlen, code, p.init, p.limit, p.target, l, regs);
    var s, n := Run(xlen, code, St(0, regs), p.target), Rounds(p, Passes(l.b, l.init, l.step, l.limit));
    assert s == St(p.target, s.regs);
    PassesRun(xlen, code, p, l, l.init, s.regs);
    RunSplit(xlen, code, St(0, regs), p.target, n);
    RunSplit(xlen, code, St(0, regs), p.target, n - 1);
  }

  // ---------------------------------------------------------------- a counter that is never moved on

  /** Not a branch, and no write to the limit. */
  predicate KeepsLimit(lim: nat, x: LoopAsm) {
    !x.Branch? && x.rd != lim
  }

  /**
   * Whatever happens to the counter on the way from the branch target at `t`, it is set again just before
   * `from`, and stands from there to the branch at `br`; or it is not touched at all, and `from` is `t`.
   */
  ghost predicate StuckLoop(code: seq<LoopAsm>, i: nat, j: nat, t: nat, from: nat, br: nat, l: Loop) {
    && SetUp(code, i, j, t, l) && t <= from <= br < |code|
    && code[br] == Branch(l.b, l.cnt, l.lim, t) && Quiet(code, l.cnt, l.lim, from, br)
    && (forall k :: t <= k < from ==> KeepsLimit(l.lim, code[k]))
    && (from > t ==> code[from - 1] == Addi(l.cnt, 0, l.init))
  }

  /** The limit stands, and from `from` on the counter is at its initial value. */
  predicate Stuck(xlen: nat, t: nat, from: nat, br: nat, l: Loop, s: St)
    requires IsXlen(xlen)
  {
    && t <= s.pc <= br && Get(s.regs, l.lim) == Word(xlen, l.limit)
    && (from <= s.pc ==> Get(s.regs, l.cnt) == Word(xlen, l.init))
  }

  lemma StuckStep(xlen: nat, code: seq<LoopAsm>, i: nat, j: nat, t: nat, from: nat, br: nat, l: Loop, s: St)
    requires IsXlen(xlen) && StuckLoop(code, i, j, t, from, br, l) && LegalLoop(l) && Stuck(xlen, t, from, br, l, s)
    ensures var u := Step(xlen, code, s);
            if s.pc < br then u.pc == s.pc + 1 && Stuck(xlen, t, from, br, l, u)
            else if TakenOn(l.b, l.init, l.limit) then Stuck(xlen, t, from, br, l, u)
            else u.pc == br + 1
  {
    if s.pc < from {
      assert KeepsLimit(l.lim, code[s.pc]);
    } else if s.pc < br {
      assert LegalTarget(l.cnt, l.lim, code[s.pc]);
    } else {
      TakenMatches(xlen, l.b, l.init, l.limit);
    }
  }

  lemma {:induction false} StuckStays(xlen: nat, code: seq<LoopAsm>, i: nat, j: nat, t: nat, from: nat, br: nat,
                                      l: Loop,
                                      s: St, n: nat)
    requires IsXlen(xlen) && StuckLoop(code, i, j, t, from, br, l) && LegalLoop(l) && Stuck(xlen, t, from, br, l, s)
    requires TakenOn(l.b, l.init, l.limit)
    ensures Run(xlen, code, s, n).pc <= br
    decreases n
  {
    if n == 0 {
    } else {
      StuckStep(xlen, code, i, j, t, from, br, l, s);
      StuckStays(xlen, code, i, j, t, from, br, l, Step(xlen, code, s), n - 1);
    }
  }

  lemma {:induction false} StuckExits(xlen: nat, code: seq<LoopAsm>, i: nat, j: nat, t: nat, from: nat, br: nat,
                                      l: Loop,
                                      s: St)
    requires IsXlen(xlen) && StuckLoop(code, i, j, t, from, br, l) && LegalLoop(l) && Stuck(xlen, t, from, br, l, s)
    requires !TakenOn(l.b, l.init, l.limit)
    ensures Run(xlen, code, s, br + 1 - s.pc).pc == br + 1
    decreases br - s.pc
  {
    StuckStep(xlen, code, i, j, t, from, br, l, s);
    if s.pc == br {
      assert Run(xlen, code, s, 1) == Run(xlen, code, Step(xlen, code, s), 0);
    } else {
      StuckExits(xlen, code, i, j, t, from, br, l, Step(xlen, code, s));
    }
  }

  /** The branches that are not taken on the initial value. */
  predicate LetsGo(l: Loop) {
    l.b in {BEQ, C_BEQZ} || (l.b == BLTU && l.init < 0)
  }

  lemma LetsGoAtOnce(l: Loop)
    requires LegalLoop(l)
    ensures LetsGo(l) <==> !TakenOn(l.b, l.init, l.limit)
  {
  }

  /** When the branch is taken on the initial value, control never gets past it. */
  lemma StuckNeverPasses(xlen: nat, code: seq<LoopAsm>, i: nat, j: nat, t: nat, from: nat, br: nat, l: Loop,
                         regs: nat -> int, n: nat)
    requires IsXlen(xlen) && StuckLoop(code, i, j, t, from, br, l) && LegalLoop(l) && Straight(code, 0, br)
    requires !LetsGo(l)
    ensures Run(xlen, code, St(0, regs), n).pc <= br
  {
    var s0 := St(0, regs);
    LetsGoAtOnce(l);
    if n < t {
      StraightRun(xlen, code, s0, n);
    } else {
      SetUpRun(xlen, code, i, j, t, l, regs);
      RunSplit(xlen, code, s0, t, n - t);
      StuckStays(xlen, code, i, j, t, from, br, l, Run(xlen, code, s0, t), n - t);
    }
  }

  /** Exactly when control gets past the branch of such a loop: when it is not taken on the initial value. */
  lemma StuckPasses(xlen: nat, code: seq<LoopAsm>, i: nat, j: nat, t: nat, from: nat, br: nat, l: Loop,
                    regs: nat -> int)
    requires IsXlen(xlen) && StuckLoop(code, i, j, t, from, br, l) && LegalLoop(l) && Straight(code, 0, br)
    ensures Reaches(xlen, code, St(0, regs), br + 1) <==> LetsGo(l)
    ensures LetsGo(l) ==> Run(xlen, code, St(0, regs), br + 1).pc == br + 1
  {
    var s0 := St(0, regs);
    if LetsGo(l) {
      LetsGoAtOnce(l);
      SetUpRun(xlen, code, i, j, t, l, regs);
      StuckExits(xlen, code, i, j, t, from, br, l, Run(xlen, code, s0, t));
      RunSplit(xlen, code, s0, t, br + 1 - t);
      assert ReachedAfter(xlen, code, s0, br + 1, br + 1);
    } else {
      var past := br + 1;
      forall n: nat
        ensures !ReachedAfter(xlen, code, s0, past, n)
      {
        StuckNeverPasses(xlen, code, i, j, t, from, br, l, regs, n);
      }
    }
  }

  /** Where no other branch follows, that is exactly when it ends. */
  lemma StuckVerdict(xlen: nat, code: seq<LoopAsm>, i: nat, j: nat, t: nat, from: nat, br: nat, l: Loop,
                     regs: nat -> int)
    requires IsXlen(xlen) && StuckLoop(code, i, j, t, from, br, l) && LegalLoop(l)
    requires Straight(code, 0, br) && Straight(code, br + 1, |code|)
    ensures Reaches(xlen, code, St(0, regs), |code|) <==> LetsGo(l)
  {
    if LetsGo(l) {
      StuckPasses(xlen, code, i, j, t, from, br, l, regs);
      GoesOn(xlen, code, St(0, regs), br + 1);
    } else {
      forall n: nat
        ensures !ReachedAfter(xlen, code, St(0, regs), |code|, n)
      {
        StuckNeverPasses(xlen, code, i, j, t, from, br, l, regs, n);
      }
    }
  }
}
