/**
 * The counter loop as it stands in its stream: built, and mixed with other instructions by a containing mix
 * (pygen/pygen_src/riscv_loop_instr.py).
 */
module LoopMix {
  import opened Words
  import opened LoopInstr
  import opened LoopRuns
  import opened InstrStream
  import opened MixOrder

  // ---------------------------------------------------------------- what is built

  /** The instructions of each loop as they are put together: the fifth entry is an earlier entry of the list itself. */
  function Built(inits: seq<LoopAsm>, targets: seq<LoopAsm>, updates: seq<LoopAsm>, branches: seq<LoopAsm>,
                 n: nat): (r: seq<LoopAsm>)
    requires 2 * n <= |inits| && n <= |targets| && n <= |updates| && n <= |branches|
    ensures |r| == 6 * n
  {
    if n == 0 then []
    else
      var i := n - 1;
      var four := Built(inits, targets, updates, branches, i) +
                  [inits[2 * i], inits[2 * i + 1], targets[i], updates[i]];
      four + [four[i], branches[i]]
  }

  lemma {:induction false} BuiltPrefix(inits: seq<LoopAsm>, targets: seq<LoopAsm>, updates: seq<LoopAsm>,
                                       branches: seq<LoopAsm>, m: nat, n: nat)
    requires m <= n && 2 * n <= |inits| && n <= |targets| && n <= |updates| && n <= |branches|
    ensures Built(inits, targets, updates, branches, m) <= Built(inits, targets, updates, branches, n)
  {
    if m == n {
    } else {
      BuiltPrefix(inits, targets, updates, branches, m, n - 1);
    }
  }

  /**
   * The six entries of loop `i`, wherever it is in the list: its two initialisations, the target of its branch,
   * its update, the list's own entry `i`, and its branch.
   */
  lemma LoopBuilt(inits: seq<LoopAsm>, targets: seq<LoopAsm>, updates: seq<LoopAsm>, branches: seq<LoopAsm>, n: nat,
                  i: nat)
    requires i < n && 2 * n <= |inits| && n <= |targets| && n <= |updates| && n <= |branches|
    ensures var r := Built(inits, targets, updates, branches, n);
            && |r| == 6 * n
            && r[6 * i] == inits[2 * i] && r[6 * i + 1] == inits[2 * i + 1]
            && r[6 * i + 2] == targets[i] && r[6 * i + 3] == updates[i]
            && r[6 * i + 4] == r[i] && r[6 * i + 5] == branches[i]
  {
    BuiltPrefix(inits, targets, updates, branches, i + 1, n);
    var front := Built(inits, targets, updates, branches, i);
    var four := front + [inits[2 * i], inits[2 * i + 1], targets[i], updates[i]];
    assert Built(inits, targets, updates, branches, i + 1) == four + [four[i], branches[i]];
  }

  class LoopStream {
    var loopInstr: seq<LoopAsm>

    constructor ()
    {
      loopInstr := [];
    }

    method BuildLoopInstrStream(inits: seq<LoopAsm>, targets: seq<LoopAsm>, updates: seq<LoopAsm>,
                                branches: seq<LoopAsm>)
      requires |inits| >= 2 * |branches| && |targets| == |updates| == |branches|
      modifies this
      ensures loopInstr == Built(inits, targets, updates, branches, |branches|)
    {
      loopInstr := [];
      for i := 0 to |branches|
        invariant loopInstr == Built(inits, targets, updates, branches, i)
      {
        loopInstr := loopInstr + [inits[2 * i]];
        loopInstr := loopInstr + [inits[2 * i + 1]];
        loopInstr := loopInstr + [targets[i]];
        loopInstr := loopInstr + [updates[i]];
        loopInstr := loopInstr + [loopInstr[i]];
        loopInstr := loopInstr + [branches[i]];
      }
    }
  }

  /** The loop as the constraint means it; the branch goes back to position `back`. */
  function IntendedLoop(l: Loop, target: LoopAsm, back: nat): seq<LoopAsm> {
    [Addi(l.cnt, 0, l.init), Addi(l.lim, 0, l.limit), target, Addi(l.cnt, l.cnt, l.step),
     Branch(l.b, l.cnt, l.lim, back)]
  }

  /** The loop as it is built: the counter is set again just before the branch. */
  function BuiltLoop(l: Loop, target: LoopAsm, back: nat): seq<LoopAsm> {
    [Addi(l.cnt, 0, l.init), Addi(l.lim, 0, l.limit), target, Addi(l.cnt, l.cnt, l.step), Addi(l.cnt, 0, l.init),
     Branch(l.b, l.cnt, l.lim, back)]
  }

  lemma {:induction false} FirstLoopBuilt(inits: seq<LoopAsm>, targets: seq<LoopAsm>, updates: seq<LoopAsm>,
                                          branches: seq<LoopAsm>, n: nat, l: Loop, target: LoopAsm, back: nat)
    requires 1 <= n && 2 * n <= |inits| && n <= |targets| && n <= |updates| && n <= |branches|
    requires inits[0] == Addi(l.cnt, 0, l.init) && inits[1] == Addi(l.lim, 0, l.limit) && targets[0] == target
    requires updates[0] == Addi(l.cnt, l.cnt, l.step) && branches[0] == Branch(l.b, l.cnt, l.lim, back)
    ensures BuiltLoop(l, target, back) <= Built(inits, targets, updates, branches, n)
    ensures n == 1 ==> Built(inits, targets, updates, branches, n) == BuiltLoop(l, target, back)
  {
    if n == 1 {
      var four := [] + [inits[0], inits[1], targets[0], updates[0]];
      assert Built(inits, targets, updates, branches, 0) == [];
      assert Built(inits, targets, updates, branches, 1) == four + [four[0], branches[0]];
    } else {
      FirstLoopBuilt(inits, targets, updates, branches, n - 1, l, target, back);
    }
  }

  // ---------------------------------------------------------------- where a mix puts it

  /** The position of the branch target after the mix, where its label is. */
  ghost function LabelAt(pos: seq<int>): nat
    requires |pos| > 2
  {
    if FinalIndex(pos, |pos|, 2) < 0 then 0 else FinalIndex(pos, |pos|, 2)
  }

  /** `loop` stands in `code` at the positions `at`, among instructions that leave its registers alone. */
  ghost predicate MixOf(code: seq<LoopAsm>, l: Loop, loop: seq<LoopAsm>, at: seq<nat>) {
    && |at| == |loop|
    && (forall i :: 0 <= i < |at| ==> at[i] < |code| && code[at[i]] == loop[i])
    && forall j: nat :: j < |code| ==> j in at || LegalTarget(l.cnt, l.lim, code[j])
  }

  /** The instructions a loop is mixed with. */
  ghost predicate Companions(l: Loop, others: seq<LoopAsm>) {
    forall x :: x in others ==> LegalTarget(l.cnt, l.lim, x)
  }

  ghost function Place(pos: seq<int>, count: nat, i: nat): (p: nat)
    requires MixInBounds(pos, count) && i < |pos|
    ensures p == FinalIndex(pos, |pos|, i) < count + |pos|
  {
    FinalIndexInside(pos, count, |pos|, i);
    FinalIndex(pos, |pos|, i)
  }

  ghost function PlacesOf(pos: seq<int>, count: nat): (at: seq<nat>)
    requires MixInBounds(pos, count)
    ensures |at| == |pos| && forall i :: 0 <= i < |pos| ==> at[i] == Place(pos, count, i)
  {
    seq(|pos|, i requires 0 <= i < |pos| => Place(pos, count, i))
  }

  lemma {:induction false} FinalIndexInside(pos: seq<int>, count: nat, n: nat, i: nat)
    requires MixInBounds(pos, count) && i < n <= |pos|
    ensures 0 <= FinalIndex(pos, n, i) < count + n
  {
    if i == n - 1 {
    } else {
      FinalIndexInside(pos, count, n - 1, i);
    }
  }

  lemma NewPlace(pos: seq<int>, count: nat, j: nat)
    requires MixInBounds(pos, count) && IsNew(pos, |pos|, j)
    ensures j in PlacesOf(pos, count)
  {
    var i: nat :| i < |pos| && FinalIndex(pos, |pos|, i) == j;
    assert PlacesOf(pos, count)[i] == j;
  }

  lemma NewInPlace(others: seq<LoopAsm>, loop: seq<LoopAsm>, pos: seq<int>, i: nat)
    requires |pos| == |loop| && MixInBounds(pos, |others|) && i < |pos|
    ensures Mixed(others, loop, pos, |pos|)[PlacesOf(pos, |others|)[i]] == loop[i]
  {
    assert PlacesOf(pos, |others|)[i] == Place(pos, |others|, i);
    NewAtFinalIndex(others, loop, pos, |pos|, i);
  }

  lemma OldElsewhere(l: Loop, others: seq<LoopAsm>, loop: seq<LoopAsm>, pos: seq<int>, j: nat)
    requires Companions(l, others) && |pos| == |loop| && MixInBounds(pos, |others|) && j < |others| + |pos|
    ensures j in PlacesOf(pos, |others|) || LegalTarget(l.cnt, l.lim, Mixed(others, loop, pos, |pos|)[j])
  {
    ElsewhereOld(others, loop, pos, |pos|, j);
    if IsNew(pos, |pos|, j) {
      NewPlace(pos, |others|, j);
    }
  }

  lemma MixPlaces(l: Loop, others: seq<LoopAsm>, loop: seq<LoopAsm>, pos: seq<int>)
    requires Companions(l, others) && |pos| == |loop| && MixInBounds(pos, |others|)
    ensures MixOf(Mixed(others, loop, pos, |pos|), l, loop, PlacesOf(pos, |others|))
  {
    var code, at := Mixed(others, loop, pos, |pos|), PlacesOf(pos, |others|);
    forall i: nat | i < |at|
      ensures at[i] < |code| && code[at[i]] == loop[i]
    {
      assert at[i] == Place(pos, |others|, i);
      NewInPlace(others, loop, pos, i);
    }
    forall j: nat | j < |code|
      ensures j in at || LegalTarget(l.cnt, l.lim, code[j])
    {
      OldElsewhere(l, others, loop, pos, j);
    }
  }

  lemma QuietBetween(code: seq<LoopAsm>, l: Loop, loop: seq<LoopAsm>, at: seq<nat>, i: nat, j: nat)
    requires MixOf(code, l, loop, at) && i <= j <= |code|
    requires forall k :: 0 <= k < |at| ==> at[k] < i || at[k] >= j
    ensures Quiet(code, l.cnt, l.lim, i, j)
  {
  }

  // ---------------------------------------------------------------- the intended loop

  /** With the update before the branch the loop ends. */
  lemma IntendedEnds(xlen: nat, code: seq<LoopAsm>, l: Loop, target: LoopAsm, at: seq<nat>, regs: nat -> int)
    requires IsXlen(xlen) && LegalLoop(l) && LegalTarget(l.cnt, l.lim, target) && |at| == 5
    requires MixOf(code, l, IntendedLoop(l, target, at[2]), at) && at[0] < at[1] < at[2] < at[3] < at[4]
    ensures Reaches(xlen, code, St(0, regs), |code|)
  {
    var loop, p := IntendedLoop(l, target, at[2]), Places(at[0], at[1], at[2], at[3], at[4]);
    IntendedSetUp(code, l, target, at);
    QuietFrom(code, l, loop, at, 2, at[3]);
    QuietBetween(code, l, loop, at, at[3] + 1, at[4]);
    OneBranch(code, l, loop, at, 4);
    MixedEnds(xlen, code, p, l, regs);
  }

  /** With the branch before the update it ends where its branch is not taken at once. */
  lemma IntendedStuck(xlen: nat, code: seq<LoopAsm>, l: Loop, target: LoopAsm, at: seq<nat>, regs: nat -> int)
    requires IsXlen(xlen) && LegalLoop(l) && LegalTarget(l.cnt, l.lim, target) && |at| == 5
    requires MixOf(code, l, IntendedLoop(l, target, at[2]), at) && at[0] < at[1] < at[2] < at[4] < at[3]
    ensures Reaches(xlen, code, St(0, regs), |code|) <==> LetsGo(l)
  {
    var loop := IntendedLoop(l, target, at[2]);
    IntendedSetUp(code, l, target, at);
    QuietFrom(code, l, loop, at, 2, at[4]);
    OneBranch(code, l, loop, at, 4);
    assert code[at[4]] == loop[4];
    StuckVerdict(xlen, code, at[0], at[1], at[2], at[2], at[4], l, regs);
  }

  lemma MixedEnds(xlen: nat, code: seq<LoopAsm>, p: Places, l: Loop, regs: nat -> int)
    requires IsXlen(xlen) && MixedLoop(code, p, l) && LegalLoop(l) && Straight(code, p.branch + 1, |code|)
    ensures Reaches(xlen, code, St(0, regs), |code|)
  {
    MixedLoopExits(xlen, code, p, l, regs);
    GoesOn(xlen, code, St(0, regs), p.target + Rounds(p, Passes(l.b, l.init, l.step, l.limit)));
  }

  /** Quiet from the place of instruction `i`, itself included, when it writes neither register. */
  lemma QuietFrom(code: seq<LoopAsm>, l: Loop, loop: seq<LoopAsm>, at: seq<nat>, i: nat, j: nat)
    requires MixOf(code, l, loop, at) && i < |at| && at[i] < j <= |code| && LegalTarget(l.cnt, l.lim, loop[i])
    requires forall k :: 0 <= k < |at| && k != i ==> at[k] < at[i] || at[k] >= j
    ensures Quiet(code, l.cnt, l.lim, at[i], j)
  {
    assert code[at[i]] == loop[i];
  }

  lemma IntendedSetUp(code: seq<LoopAsm>, l: Loop, target: LoopAsm, at: seq<nat>)
    requires |at| == 5 && MixOf(code, l, IntendedLoop(l, target, at[2]), at)
    requires at[0] < at[1] < at[2] && at[2] < at[3] && at[2] < at[4]
    ensures SetUp(code, at[0], at[1], at[2], l)
  {
    var loop := IntendedLoop(l, target, at[2]);
    QuietBetween(code, l, loop, at, 0, at[0]);
    QuietBetween(code, l, loop, at, at[0] + 1, at[1]);
    QuietBetween(code, l, loop, at, at[1] + 1, at[2]);
    assert code[at[0]] == loop[0] && code[at[1]] == loop[1];
  }

  /** The only branch of the mixed list is the loop's. */
  lemma OneBranch(code: seq<LoopAsm>, l: Loop, loop: seq<LoopAsm>, at: seq<nat>, k: nat)
    requires MixOf(code, l, loop, at) && k < |at|
    requires forall i :: 0 <= i < |loop| && i != k ==> !loop[i].Branch?
    ensures Straight(code, 0, at[k]) && Straight(code, at[k] + 1, |code|)
  {
    forall j: nat | j < |code| && j != at[k]
      ensures !code[j].Branch?
    {
      if j in at {
        var i :| 0 <= i < |at| && at[i] == j;
        assert code[at[i]] == loop[i];
      }
    }
  }

  /**
   * Exactly when the loop its constraint is meant for ends, as the containing mix spreads it: when the mix
   * keeps the order, or the branch is not taken at once.
   */
  lemma MixedIntendedVerdict(xlen: nat, others: seq<LoopAsm>, l: Loop, target: LoopAsm, pos: seq<int>,
                             regs: nat -> int)
    requires IsXlen(xlen) && LegalLoop(l) && LegalTarget(l.cnt, l.lim, target) && Companions(l, others)
    requires MixPositions(pos, 5, |others|, true) && MixInBounds(pos, |others|)
    ensures var code := Mixed(others, IntendedLoop(l, target, LabelAt(pos)), pos, 5);
            Reaches(xlen, code, St(0, regs), |code|) <==> pos[3] < |others| || LetsGo(l)
  {
    var loop, at := IntendedLoop(l, target, LabelAt(pos)), PlacesOf(pos, |others|);
    ContainedMixOrder(pos, 5, |others|);
    MixPlaces(l, others, loop, pos);
    assert at[2] == LabelAt(pos);
    DistinctPlaces(pos, |others|);
    if pos[3] < |others| {
      IntendedEnds(xlen, Mixed(others, loop, pos, 5), l, target, at, regs);
    } else {
      IntendedStuck(xlen, Mixed(others, loop, pos, 5), l, target, at, regs);
    }
  }

  /** No two new instructions come to the same place. */
  lemma {:induction false} FinalIndicesDiffer(pos: seq<int>, n: nat, i: nat, j: nat)
    requires i < j < n <= |pos|
    ensures FinalIndex(pos, n, i) != FinalIndex(pos, n, j)
  {
    if j == n - 1 {
    } else {
      FinalIndicesDiffer(pos, n - 1, i, j);
    }
  }

  lemma DistinctPlaces(pos: seq<int>, count: nat)
    requires MixInBounds(pos, count)
    ensures forall i, j :: 0 <= i < j < |pos| ==> PlacesOf(pos, count)[i] != PlacesOf(pos, count)[j]
  {
    forall i, j | 0 <= i < j < |pos|
      ensures PlacesOf(pos, count)[i] != PlacesOf(pos, count)[j]
    {
      FinalIndicesDiffer(pos, |pos|, i, j);
    }
  }

  // ---------------------------------------------------------------- the built loop

  /** With the second setting of the counter after the branch the loop ends. */
  lemma BuiltEnds(xlen: nat, code: seq<LoopAsm>, l: Loop, target: LoopAsm, at: seq<nat>, regs: nat -> int)
    requires IsXlen(xlen) && LegalLoop(l) && LegalTarget(l.cnt, l.lim, target) && |at| == 6
    requires MixOf(code, l, BuiltLoop(l, target, at[2]), at) && at[0] < at[1] < at[2] < at[3] < at[5] < at[4]
    ensures Reaches(xlen, code, St(0, regs), |code|)
  {
    var loop, p := BuiltLoop(l, target, at[2]), Places(at[0], at[1], at[2], at[3], at[5]);
    BuiltSetUp(code, l, target, at);
    QuietFrom(code, l, loop, at, 2, at[3]);
    QuietBetween(code, l, loop, at, at[3] + 1, at[5]);
    OneBranch(code, l, loop, at, 5);
    MixedEnds(xlen, code, p, l, regs);
  }

  /** Before the branch it undoes the update. */
  lemma BuiltStuck(xlen: nat, code: seq<LoopAsm>, l: Loop, target: LoopAsm, at: seq<nat>, regs: nat -> int)
    requires IsXlen(xlen) && LegalLoop(l) && LegalTarget(l.cnt, l.lim, target) && |at| == 6
    requires MixOf(code, l, BuiltLoop(l, target, at[2]), at) && at[0] < at[1] < at[2] < at[3] < at[4] < at[5]
    ensures Reaches(xlen, code, St(0, regs), |code|) <==> LetsGo(l)
  {
    var loop := BuiltLoop(l, target, at[2]);
    BuiltSetUp(code, l, target, at);
    QuietBetween(code, l, loop, at, at[4] + 1, at[5]);
    BuiltKeepsLimit(code, l, target, at);
    OneBranch(code, l, loop, at, 5);
    assert code[at[4]] == loop[4] && code[at[5]] == loop[5];
    StuckVerdict(xlen, code, at[0], at[1], at[2], at[4] + 1, at[5], l, regs);
  }

  lemma BuiltSetUp(code: seq<LoopAsm>, l: Loop, target: LoopAsm, at: seq<nat>)
    requires |at| == 6 && MixOf(code, l, BuiltLoop(l, target, at[2]), at)
    requires at[0] < at[1] < at[2] && at[2] < at[3] && at[2] < at[4] && at[2] < at[5]
    ensures SetUp(code, at[0], at[1], at[2], l)
  {
    var loop := BuiltLoop(l, target, at[2]);
    QuietBetween(code, l, loop, at, 0, at[0]);
    QuietBetween(code, l, loop, at, at[0] + 1, at[1]);
    QuietBetween(code, l, loop, at, at[1] + 1, at[2]);
    assert code[at[0]] == loop[0] && code[at[1]] == loop[1];
  }

  /** From the branch target to the second setting of the counter, the limit is left alone. */
  lemma BuiltKeepsLimit(code: seq<LoopAsm>, l: Loop, target: LoopAsm, at: seq<nat>)
    requires |at| == 6 && MixOf(code, l, BuiltLoop(l, target, at[2]), at) && l.cnt != l.lim
    requires at[0] < at[1] < at[2] < at[3] < at[4] < at[5] && LegalTarget(l.cnt, l.lim, target)
    ensures forall k :: at[2] <= k <= at[4] ==> KeepsLimit(l.lim, code[k])
  {
    var loop := BuiltLoop(l, target, at[2]);
    forall k: nat | at[2] <= k <= at[4]
      ensures KeepsLimit(l.lim, code[k])
    {
      if k in at {
        var i :| 0 <= i < 6 && at[i] == k;
        assert code[at[i]] == loop[i] && 2 <= i <= 4;
      }
    }
  }

  /**
   * Exactly when the loop that is built ends, as the containing mix spreads it: when the mix loses the order,
   * so that the counter is set again only after the branch, or the branch is not taken at once.
   */
  lemma MixedBuiltVerdict(xlen: nat, others: seq<LoopAsm>, l: Loop, target: LoopAsm, pos: seq<int>, regs: nat -> int)
    requires IsXlen(xlen) && LegalLoop(l) && LegalTarget(l.cnt, l.lim, target) && Companions(l, others)
    requires MixPositions(pos, 6, |others|, true) && MixInBounds(pos, |others|)
    ensures var code := Mixed(others, BuiltLoop(l, target, LabelAt(pos)), pos, 6);
            Reaches(xlen, code, St(0, regs), |code|) <==> pos[4] >= |others| || LetsGo(l)
  {
    var loop, at := BuiltLoop(l, target, LabelAt(pos)), PlacesOf(pos, |others|);
    ContainedMixOrder(pos, 6, |others|);
    MixPlaces(l, others, loop, pos);
    assert at[2] == LabelAt(pos);
    DistinctPlaces(pos, |others|);
    if pos[4] < |others| {
      BuiltStuck(xlen, Mixed(others, loop, pos, 6), l, target, at, regs);
    } else {
      BuiltEnds(xlen, Mixed(others, loop, pos, 6), l, target, at, regs);
    }
  }

  // ---------------------------------------------------------------- the loops by themselves

  lemma IntendedLoopExits(xlen: nat, l: Loop, target: LoopAsm, regs: nat -> int)
    requires IsXlen(xlen) && LegalLoop(l) && LegalTarget(l.cnt, l.lim, target)
    ensures Reaches(xlen, IntendedLoop(l, target, 2), St(0, regs), 5)
  {
    var loop := IntendedLoop(l, target, 2);
    assert MixOf(loop, l, loop, [0, 1, 2, 3, 4]);
    IntendedEnds(xlen, loop, l, target, [0, 1, 2, 3, 4], regs);
  }

  /** Side by side, whatever follows, control gets past the built loop exactly when its branch is not taken at once. */
  lemma BuiltLoopVerdict(xlen: nat, l: Loop, target: LoopAsm, code: seq<LoopAsm>, regs: nat -> int)
    requires IsXlen(xlen) && LegalLoop(l) && LegalTarget(l.cnt, l.lim, target) && BuiltLoop(l, target, 2) <= code
    ensures Reaches(xlen, code, St(0, regs), 6) <==> LetsGo(l)
  {
    var loop := BuiltLoop(l, target, 2);
    assert forall k :: 0 <= k < 6 ==> code[k] == loop[k];
    StuckPasses(xlen, code, 0, 1, 2, 5, 5, l, regs);
  }

  // ---------------------------------------------------------------- one register for counter and limit

  /** Compared with itself, a value takes these branches. */
  predicate TakenOnSelf(b: BranchType) {
    b in {BEQ, BGE, BGEU}
  }

  lemma {:induction false} SharedStays(xlen: nat, l: Loop, target: LoopAsm, s: St, n: nat)
    requires IsXlen(xlen) && TakenOnSelf(l.b) && l.cnt == l.lim && target.Other? && s.pc < 5
    ensures Run(xlen, IntendedLoop(l, target, 2), s, n).pc < 5
    decreases n
  {
    if n == 0 {
    } else {
      SharedStays(xlen, l, target, Step(xlen, IntendedLoop(l, target, 2), s), n - 1);
    }
  }

  /** Nothing forbids the counter and limit registers to be one: then the loop ends for bne, blt and bltu only. */
  lemma SharedRegisterVerdict(xlen: nat, l: Loop, target: LoopAsm, regs: nat -> int)
    requires IsXlen(xlen) && l.cnt == l.lim && LegalRegs(l.b, l.cnt, l.lim) && target.Other?
    ensures Reaches(xlen, IntendedLoop(l, target, 2), St(0, regs), 5) <==> l.b in {BNE, BLT, BLTU}
  {
    var code := IntendedLoop(l, target, 2);
    if l.b in {BNE, BLT, BLTU} {
      var s1 := Step(xlen, code, St(0, regs));
      var s2 := Step(xlen, code, s1);
      var s3 := Step(xlen, code, s2);
      var s4 := Step(xlen, code, s3);
      var s5 := Step(xlen, code, s4);
      assert s4.pc == 4 && s5.pc == 5;
      assert Run(xlen, code, s3, 2) == Run(xlen, code, s4, 1) == Run(xlen, code, s5, 0);
      assert Run(xlen, code, St(0, regs), 5) == Run(xlen, code, s1, 4) == Run(xlen, code, s2, 3) == s5;
      assert ReachedAfter(xlen, code, St(0, regs), 5, 5);
    } else {
      forall n: nat
        ensures !ReachedAfter(xlen, code, St(0, regs), 5, n)
      {
        SharedStays(xlen, l, target, St(0, regs), n);
      }
    }
  }

  // ---------------------------------------------------------------- each failure happens

  const FILLER: LoopAsm := Other(7, (r: nat -> int) => 0)

  /** A count from 0 to 3 by ones, mixed with one instruction: as intended it hangs when the order is lost. */
  lemma IntendedLoopCanHang(xlen: nat, regs: nat -> int)
    requires IsXlen(xlen)
    ensures var l, pos := Loop(BNE, 5, 6, 0, 1, 3), [0, 0, 0, 1, 0];
            && LegalLoop(l) && MixPositions(pos, 5, 1, true) && MixInBounds(pos, 1)
            && var code := Mixed([FILLER], IntendedLoop(l, FILLER, LabelAt(pos)), pos, 5);
               !Reaches(xlen, code, St(0, regs), |code|)
  {
    var l, pos := Loop(BNE, 5, 6, 0, 1, 3), [0, 0, 0, 1, 0];
    var drawn := [0, 0, 0, 1, 1];
    assert SortedIn(drawn, 1) && pos == drawn[0 := 0][4 := 0];
    MixedIntendedVerdict(xlen, [FILLER], l, FILLER, pos, regs);
  }

  /** The same count as built hangs when the order is kept. */
  lemma BuiltLoopCanHang(xlen: nat, regs: nat -> int)
    requires IsXlen(xlen)
    ensures var l, pos := Loop(BNE, 5, 6, 0, 1, 3), [0, 0, 0, 0, 0, 0];
            && LegalLoop(l) && MixPositions(pos, 6, 1, true) && MixInBounds(pos, 1)
            && var code := Mixed([FILLER], BuiltLoop(l, FILLER, LabelAt(pos)), pos, 6);
               !Reaches(xlen, code, St(0, regs), |code|)
  {
    var l, pos := Loop(BNE, 5, 6, 0, 1, 3), [0, 0, 0, 0, 0, 0];
    assert SortedIn(pos, 1) && pos == pos[0 := 0][5 := 0];
    MixedBuiltVerdict(xlen, [FILLER], l, FILLER, pos, regs);
  }

  /** A count down from 5 to 0 never ends when one register is counter and limit. */
  lemma SharedRegisterCanHang(xlen: nat, regs: nat -> int)
    requires IsXlen(xlen)
    ensures LoopC(BGE, 5, -1, 0) && LegalRegs(BGE, 5, 5)
    ensures !Reaches(xlen, IntendedLoop(Loop(BGE, 5, 5, 5, -1, 0), FILLER, 2), St(0, regs), 5)
  {
    SharedRegisterVerdict(xlen, Loop(BGE, 5, 5, 5, -1, 0), FILLER, regs);
  }
}
