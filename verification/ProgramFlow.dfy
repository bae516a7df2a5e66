/** How assembled instruction lists run: local labels as the assembler resolves them, and the program counter. */
module ProgramFlow {
  import opened InstrStream

  datatype Place = Undefined | At(pos: nat)

  /** The instruction carries the local label `t`. */
  predicate HasNumber(x: Instr, t: int) {
    x.hasLabel && x.tag == Numeric(t)
  }

  /** `Nf`: the nearest label at or after `from`. */
  function FindForward(code: seq<Instr>, from: nat, t: int): (p: Place)
    ensures p.At? ==> from <= p.pos < |code| && HasNumber(code[p.pos], t)
    ensures p.At? ==> forall j :: from <= j < p.pos ==> !HasNumber(code[j], t)
    ensures p.Undefined? ==> forall j :: from <= j < |code| ==> !HasNumber(code[j], t)
    decreases |code| - from
  {
    if from >= |code| then Undefined
    else if HasNumber(code[from], t) then At(from)
    else FindForward(code, from + 1, t)
  }

  /** `Nb`: the nearest label at or before `from`. */
  function FindBackward(code: seq<Instr>, from: nat, t: int): (p: Place)
    requires from < |code|
    ensures p.At? ==> p.pos <= from && HasNumber(code[p.pos], t)
    ensures p.At? ==> forall j :: p.pos < j <= from ==> !HasNumber(code[j], t)
    ensures p.Undefined? ==> forall j :: 0 <= j <= from ==> !HasNumber(code[j], t)
  {
    if HasNumber(code[from], t) then At(from)
    else if from == 0 then Undefined
    else FindBackward(code, from - 1, t)
  }

  /** A label that is a name: the first place that carries it. */
  function FindName(code: seq<Instr>, from: nat, s: string): (p: Place)
    ensures p.At? ==> from <= p.pos < |code| && code[p.pos].hasLabel && code[p.pos].tag == Named(s)
    ensures p.Undefined? ==> forall j :: from <= j < |code| ==> !(code[j].hasLabel && code[j].tag == Named(s))
    decreases |code| - from
  {
    if from >= |code| then Undefined
    else if code[from].hasLabel && code[from].tag == Named(s) then At(from)
    else FindName(code, from + 1, s)
  }

  function Resolve(code: seq<Instr>, pc: nat): Place
    requires pc < |code|
  {
    match code[pc].target
    case Forward(t) => FindForward(code, pc + 1, t)
    case Backward(t) => FindBackward(code, pc, t)
    case ToName(s) => FindName(code, 0, s)
    case NoTarget => Undefined
  }

  /**
   * The next position. `taken` decides a branch; an instruction replaced by an illegal one traps and is
   * resumed after.
   */
  function Next(code: seq<Instr>, pc: nat, taken: bool): Place
    requires pc < |code|
  {
    var x := code[pc];
    if x.isIllegal then At(pc + 1)
    else match x.category
      case BRANCH => if taken then Resolve(code, pc) else At(pc + 1)
      case JUMP => Resolve(code, pc)
      case OTHER => At(pc + 1)
  }

  /** Where the program is after one step for each of `taken`, which says what the branches do. */
  function Run(code: seq<Instr>, taken: seq<bool>, pc: nat): Place {
    if taken == [] || pc >= |code| then At(pc)
    else
      var p := Next(code, pc, taken[0]);
      if p.Undefined? then Undefined else Run(code, taken[1..], p.pos)
  }

  /** The branch of a counter loop, which goes back to a label that is a name. */
  predicate LoopBranch(x: Instr) {
    x.category == BRANCH && x.branchAssigned && x.target.ToName? && !x.isIllegal
  }

  /** How often loop branches are taken on the way. */
  function LoopTakes(code: seq<Instr>, taken: seq<bool>, pc: nat): nat {
    if taken == [] || pc >= |code| then 0
    else
      var p := Next(code, pc, taken[0]);
      (if LoopBranch(code[pc]) && taken[0] then 1 else 0) +
      (if p.Undefined? then 0 else LoopTakes(code, taken[1..], p.pos))
  }

  /**
   * Whatever the branches do, the program leaves the list at its end, within `n` steps and `n` more for each
   * time a loop branch is taken.
   */
  ghost predicate FinishesWithin(code: seq<Instr>, pc: nat, n: nat) {
    forall taken: seq<bool> :: |taken| >= (LoopTakes(code, taken, pc) + 1) * n ==> Run(code, taken, pc) == At(|code|)
  }

  /** Every step, taken or not, has a target, and goes to a place of higher rank or to the end, or goes round a loop. */
  ghost predicate RankedStep(code: seq<Instr>, rank: seq<nat>, pc: nat, taken: bool)
    requires |rank| == |code| && pc < |code|
  {
    var p := Next(code, pc, taken);
    && p.At? && p.pos <= |code|
    && (p.pos < |code| ==> rank[pc] < rank[p.pos] || (LoopBranch(code[pc]) && taken))
  }

  ghost predicate Ranked(code: seq<Instr>, rank: seq<nat>) {
    && |rank| == |code|
    && (forall pc :: 0 <= pc < |code| ==> rank[pc] < |code|)
    && (forall pc, taken :: 0 <= pc < |code| ==> RankedStep(code, rank, pc, taken))
  }

  lemma {:induction false} RankedRunFinishes(code: seq<Instr>, rank: seq<nat>, taken: seq<bool>, pc: nat)
    requires Ranked(code, rank) && pc <= |code|
    requires pc < |code| ==> |taken| >= LoopTakes(code, taken, pc) * |code| + |code| - rank[pc]
    ensures Run(code, taken, pc) == At(|code|)
    decreases |taken|
  {
    if pc == |code| {
    } else {
      Enough(LoopTakes(code, taken, pc), |code|);
      var p, rest := Next(code, pc, taken[0]), taken[1..];
      assert RankedStep(code, rank, pc, taken[0]);
      var back := LoopBranch(code[pc]) && taken[0];
      assert LoopTakes(code, taken, pc) == LoopTakes(code, rest, p.pos) + (if back then 1 else 0);
      OneFewer(LoopTakes(code, rest, p.pos), |code|);
      RankedRunFinishes(code, rank, rest, p.pos);
    }
  }

  lemma Enough(b: nat, n: nat)
    ensures b * n >= 0
  {
  }

  lemma OneFewer(b: nat, n: nat)
    ensures (b + 1) * n == b * n + n
  {
  }

  /** A ranked program never takes more steps than it has instructions, and as many again for each loop round. */
  lemma RankedFinishes(code: seq<Instr>, rank: seq<nat>)
    requires Ranked(code, rank)
    ensures FinishesWithin(code, 0, |code|)
  {
    forall taken: seq<bool> | |taken| >= (LoopTakes(code, taken, 0) + 1) * |code|
      ensures Run(code, taken, 0) == At(|code|)
    {
      OneFewer(LoopTakes(code, taken, 0), |code|);
      RankedRunFinishes(code, rank, taken, 0);
    }
  }

  /** Without loops that is the number of its instructions. */
  lemma {:induction false} NoLoopTakes(code: seq<Instr>, taken: seq<bool>, pc: nat)
    requires forall j :: 0 <= j < |code| ==> !LoopBranch(code[j])
    ensures LoopTakes(code, taken, pc) == 0
    decreases |taken|
  {
    if taken == [] || pc >= |code| {
    } else if Next(code, pc, taken[0]).At? {
      NoLoopTakes(code, taken[1..], Next(code, pc, taken[0]).pos);
    }
  }
}
