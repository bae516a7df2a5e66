/** The back-to-back jump stream (pygen/pygen_src/riscv_directed_instr_lib.py, `riscv_jal_instr`). */
module JumpChain {
  import opened InstrStream
  import opened ProgramFlow

  predicate Permutation(order: seq<nat>, n: nat) {
    && |order| == n
    && (forall k :: 0 <= k < n ==> order[k] < n)
    && (forall j, k :: 0 <= j < k < n ==> order[j] != order[k])
  }

  /** Where the jump reached `k`-th sends control: the next one in the order, or the end. */
  function JumpTarget(order: seq<nat>, k: nat): Target
    requires k < |order|
  {
    if k == |order| - 1 then Forward(|order|)
    else if order[k + 1] > order[k] then Forward(order[k + 1])
    else Backward(order[k + 1])
  }

  /** Where jump `i` of a stream at `a` stands, and for `i` past the jumps, where the end does. */
  function Slot(a: nat, i: nat): nat {
    a + 1 + i
  }

  /** `code` holds, from `a`, a jump stream over `order`; nothing is said of what is around it. */
  ghost predicate ChainAt(code: seq<Instr>, a: nat, order: seq<nat>) {
    var n := |order|;
    && n >= 1 && Permutation(order, n)
    && a + n + 2 <= |code|
    && (forall j :: a <= j < a + n + 2 ==> !code[j].isIllegal && code[j].hasLabel)
    && code[a].category == JUMP && code[a].target == Forward(order[0])
    && (forall i :: 0 <= i < n ==> code[Slot(a, i)].category == JUMP && code[Slot(a, i)].tag == Numeric(i))
    && (forall k {:trigger JumpTarget(order, k)} :: 0 <= k < n ==>
      code[Slot(a, order[k])].target == JumpTarget(order, k))
    && code[Slot(a, n)].tag == Numeric(n)
  }

  /** `riscv_jal_instr`: its jumps, and the stream made of them. */
  class JalStream {
    var jump: seq<Instr>
    var instrList: seq<Instr>

    constructor ()
    {
      jump, instrList := [], [];
    }

    /** `start`, `end` and `plain` are the randomised instructions the stream is made of. */
    method PostRandomize(tag: Label, start: Instr, end: Instr, plain: seq<Instr>) returns (ghost order: seq<nat>)
      requires plain != [] && start.category == JUMP && !start.isIllegal && !end.isIllegal
      requires forall i :: 0 <= i < |plain| ==> plain[i].category == JUMP && !plain[i].isIllegal
      modifies this
      ensures |order| == |plain| && ChainAt(instrList, 0, order)
      ensures |instrList| == |plain| + 2 && AllAtomic(instrList)
      ensures instrList[0] == Marked(start.(target := Forward(order[0]), tag := tag))
      ensures instrList[|plain| + 1] == Marked(end.(tag := Numeric(|plain|)))
      ensures forall i :: 0 <= i < |plain| ==>
        instrList[Slot(0, i)] == Marked(plain[i].(tag := Numeric(i), target := instrList[Slot(0, i)].target))
    {
      var n := |plain|;
      var o := ShuffledRange(n);
      order := o;
      NumberJumps(plain);
      ChooseTargets(o);
      var jumpStart := start.(target := Forward(o[0]), tag := tag);
      var jumpEnd := end.(tag := Numeric(n));
      instrList := [jumpStart] + jump + [jumpEnd];
      ghost var bare := instrList;
      MarkStream();
      BareElements(jumpStart, jump, jumpEnd);
      MarkedChain(jumpStart, jump, jumpEnd, bare, instrList, o);
    }

    /** The jumps, each labelled with its number. */
    method NumberJumps(plain: seq<Instr>)
      modifies `jump
      ensures |jump| == |plain|
      ensures forall j :: 0 <= j < |plain| ==> jump[j] == plain[j].(tag := Numeric(j))
    {
      jump := [];
      for i := 0 to |plain|
        invariant |jump| == i
        invariant forall j :: 0 <= j < i ==> jump[j] == plain[j].(tag := Numeric(j))
      {
        jump := jump + [plain[i].(tag := Numeric(i))];
      }
    }

    /** Sends each jump of the order to the next, forward or backward as the numbers compare. */
    method ChooseTargets(order: seq<nat>)
      requires |jump| == |order| && Permutation(order, |order|)
      modifies `jump
      ensures |jump| == |order|
      ensures forall j :: 0 <= j < |jump| ==> jump[j] == old(jump[j]).(target := jump[j].target)
      ensures forall k {:trigger JumpTarget(order, k)} :: 0 <= k < |order| ==>
        jump[order[k]].target == JumpTarget(order, k)
    {
      var n := |order|;
      for k := 0 to n
        invariant |jump| == n
        invariant forall j :: 0 <= j < n ==> jump[j] == old(jump[j]).(target := jump[j].target)
        invariant forall m {:trigger JumpTarget(order, m)} :: 0 <= m < k ==>
          jump[order[m]].target == JumpTarget(order, m)
      {
        var t := if k == n - 1 then Forward(n)
                 else if order[k + 1] > order[k] then Forward(order[k + 1])
                 else Backward(order[k + 1]);
        jump := jump[order[k] := jump[order[k]].(target := t)];
      }
    }

    method MarkStream()
      modifies `instrList
      ensures |instrList| == |old(instrList)|
      ensures forall j :: 0 <= j < |instrList| ==> instrList[j] == Marked(old(instrList[j]))
    {
      for i := 0 to |instrList|
        invariant |instrList| == |old(instrList)|
        invariant forall j :: 0 <= j < i ==> instrList[j] == Marked(old(instrList[j]))
        invariant forall j :: i <= j < |instrList| ==> instrList[j] == old(instrList[j])
      {
        instrList := instrList[i := instrList[i].(hasLabel := true, atomic := true)];
      }
    }
  }

  function Marked(x: Instr): Instr {
    x.(hasLabel := true, atomic := true)
  }

  lemma BareElements(start: Instr, jump: seq<Instr>, end: Instr)
    ensures var bare := [start] + jump + [end];
            && bare[0] == start && bare[Slot(0, |jump|)] == end
            && forall i :: 0 <= i < |jump| ==> bare[Slot(0, i)] == jump[i]
  {
  }

  lemma MarkedChain(start: Instr, jump: seq<Instr>, end: Instr, bare: seq<Instr>, list: seq<Instr>, order: seq<nat>)
    requires |order| >= 1 && Permutation(order, |order|) && |jump| == |order|
    requires start.category == JUMP && !start.isIllegal && start.target == Forward(order[0])
    requires !end.isIllegal && end.tag == Numeric(|order|)
    requires forall i :: 0 <= i < |jump| ==> jump[i].category == JUMP && !jump[i].isIllegal && jump[i].tag == Numeric(i)
    requires forall k {:trigger JumpTarget(order, k)} :: 0 <= k < |order| ==>
      jump[order[k]].target == JumpTarget(order, k)
    requires bare == [start] + jump + [end] && |list| == |bare|
    requires forall j :: 0 <= j < |list| ==> list[j] == Marked(bare[j])
    ensures ChainAt(list, 0, order)
  {
    var marked := seq(|jump|, i requires 0 <= i < |jump| => Marked(jump[i]));
    forall i | 0 <= i < |jump|
      ensures list[Slot(0, i)] == marked[i]
    {
      assert bare[Slot(0, i)] == jump[i];
    }
    forall k | 0 <= k < |order|
      ensures marked[order[k]].target == JumpTarget(order, k)
    {
      assert jump[order[k]].target == JumpTarget(order, k);
    }
    BareElements(start, jump, end);
    ChainOf(Marked(start), marked, Marked(end), list, order);
  }

  /** A list of a start, the jumps and an end is a chain. */
  lemma ChainOf(start: Instr, jump: seq<Instr>, end: Instr, list: seq<Instr>, order: seq<nat>)
    requires |order| >= 1 && Permutation(order, |order|) && |jump| == |order| && |list| == |jump| + 2
    requires list[0] == start && list[Slot(0, |jump|)] == end
    requires forall i :: 0 <= i < |jump| ==> list[Slot(0, i)] == jump[i]
    requires start.category == JUMP && !start.isIllegal && start.hasLabel && start.target == Forward(order[0])
    requires !end.isIllegal && end.hasLabel && end.tag == Numeric(|order|)
    requires forall i :: 0 <= i < |jump| ==>
      jump[i].category == JUMP && !jump[i].isIllegal && jump[i].hasLabel && jump[i].tag == Numeric(i)
    requires forall k {:trigger JumpTarget(order, k)} :: 0 <= k < |order| ==>
      jump[order[k]].target == JumpTarget(order, k)
    ensures ChainAt(list, 0, order)
  {
    forall j | 0 <= j < |list|
      ensures !list[j].isIllegal && list[j].hasLabel
    {
      if 0 < j < |list| - 1 {
        assert list[Slot(0, j - 1)] == jump[j - 1];
      }
    }
  }

  /** A shuffled list of 0..n-1. */
  method ShuffledRange(n: nat) returns (order: seq<nat>)
    ensures Permutation(order, n)
  {
    var plain: seq<nat> := [];
    for i := 0 to n
      invariant |plain| == i && forall k :: 0 <= k < i ==> plain[k] == k
    {
      plain := plain + [i];
    }
    assert Permutation(plain, n);
    order :| Permutation(order, n);
  }

  // ---------------------------------------------------------------- running the chain

  lemma ForwardInChain(code: seq<Instr>, a: nat, order: seq<nat>, from: nat, t: nat)
    requires ChainAt(code, a, order) && t <= |order| && a + 1 <= from <= Slot(a, t)
    ensures FindForward(code, from, t) == At(Slot(a, t))
  {
    assert HasNumber(code[Slot(a, t)], t);
    forall j | from <= j < Slot(a, t)
      ensures !HasNumber(code[j], t)
    {
      assert j == Slot(a, j - a - 1);
    }
  }

  lemma BackwardInChain(code: seq<Instr>, a: nat, order: seq<nat>, from: nat, t: nat)
    requires ChainAt(code, a, order) && t < |order| && Slot(a, t) <= from < Slot(a, |order|)
    ensures FindBackward(code, from, t) == At(Slot(a, t))
  {
    assert HasNumber(code[Slot(a, t)], t);
    forall j | Slot(a, t) < j <= from
      ensures !HasNumber(code[j], t)
    {
      assert j == Slot(a, j - a - 1);
    }
  }

  lemma ChainStart(code: seq<Instr>, a: nat, order: seq<nat>, taken: bool)
    requires ChainAt(code, a, order)
    ensures Next(code, a, taken) == At(Slot(a, order[0]))
  {
    ForwardInChain(code, a, order, a + 1, order[0]);
  }

  lemma ChainStep(code: seq<Instr>, a: nat, order: seq<nat>, k: nat, taken: bool)
    requires ChainAt(code, a, order) && k < |order|
    ensures Next(code, Slot(a, order[k]), taken) ==
            At(if k + 1 < |order| then Slot(a, order[k + 1]) else Slot(a, |order|))
  {
    var n, pc := |order|, Slot(a, order[k]);
    assert code[pc].category == JUMP && code[pc].target == JumpTarget(order, k);
    if k == n - 1 {
      ForwardInChain(code, a, order, pc + 1, n);
    } else if order[k + 1] > order[k] {
      ForwardInChain(code, a, order, pc + 1, order[k + 1]);
    } else {
      BackwardInChain(code, a, order, pc, order[k + 1]);
    }
  }

  /** The place of the chain's `m`-th step: the start, the jumps in order, the end. */
  function ChainPlace(a: nat, order: seq<nat>, m: nat): nat
    requires m <= |order| + 1
  {
    if m == 0 then a else if m <= |order| then Slot(a, order[m - 1]) else Slot(a, |order|)
  }

  lemma ChainNext(code: seq<Instr>, a: nat, order: seq<nat>, m: nat, taken: bool)
    requires ChainAt(code, a, order) && m <= |order|
    ensures ChainPlace(a, order, m) < |code|
    ensures Next(code, ChainPlace(a, order, m), taken) == At(ChainPlace(a, order, m + 1))
  {
    if m == 0 {
      ChainStart(code, a, order, taken);
    } else {
      ChainStep(code, a, order, m - 1, taken);
    }
  }

  lemma RunStep(code: seq<Instr>, taken: seq<bool>, pc: nat, q: nat)
    requires taken != [] && pc < |code| && Next(code, pc, taken[0]) == At(q)
    ensures Run(code, taken, pc) == Run(code, taken[1..], q)
  {
  }

  /** Each place of the chain leads to the next, whatever branches do. */
  ghost predicate PlaceLeads(code: seq<Instr>, a: nat, order: seq<nat>, m: nat)
    requires m <= |order|
  {
    ChainPlace(a, order, m) < |code| &&
    forall taken :: Next(code, ChainPlace(a, order, m), taken) == At(ChainPlace(a, order, m + 1))
  }

  lemma {:induction false} LeadingRuns(code: seq<Instr>, a: nat, order: seq<nat>, m: nat, taken: seq<bool>)
    requires forall k: nat :: k <= |order| ==> PlaceLeads(code, a, order, k)
    requires m + |taken| <= |order| + 1
    ensures Run(code, taken, ChainPlace(a, order, m)) == At(ChainPlace(a, order, m + |taken|))
    decreases |taken|
  {
    if taken == [] {
    } else {
      assert PlaceLeads(code, a, order, m);
      RunStep(code, taken, ChainPlace(a, order, m), ChainPlace(a, order, m + 1));
      LeadingRuns(code, a, order, m + 1, taken[1..]);
    }
  }

  /** From any of its places the chain runs the rest of the order, wherever the stream stands in the program. */
  lemma ChainRuns(code: seq<Instr>, a: nat, order: seq<nat>, m: nat, taken: seq<bool>)
    requires ChainAt(code, a, order) && m + |taken| <= |order| + 1
    ensures Run(code, taken, ChainPlace(a, order, m)) == At(ChainPlace(a, order, m + |taken|))
  {
    forall k: nat | k <= |order|
      ensures PlaceLeads(code, a, order, k)
    {
      ChainNext(code, a, order, k, true);
      ChainNext(code, a, order, k, false);
    }
    LeadingRuns(code, a, order, m, taken);
  }

  ghost function Elements(s: seq<nat>): (r: set<nat>)
    ensures forall x :: x in r <==> x in s
  {
    if s == [] then {} else Elements(s[..|s| - 1]) + {s[|s| - 1]}
  }

  lemma {:induction false} DistinctCardinality(s: seq<nat>)
    requires forall j, k :: 0 <= j < k < |s| ==> s[j] != s[k]
    ensures |Elements(s)| == |s|
  {
    if s == [] {
    } else {
      DistinctCardinality(s[..|s| - 1]);
    }
  }

  ghost function Below(n: nat): (r: set<nat>)
    ensures |r| == n
    ensures forall x: nat :: x in r <==> x < n
  {
    if n == 0 then {}
    else
      var r := Below(n - 1);
      assert n - 1 !in r;
      r + {n - 1}
  }

  lemma {:induction false} SubsetSize(s: set<nat>, t: set<nat>)
    requires s <= t
    ensures |s| <= |t|
    decreases s
  {
    if s == {} {
    } else {
      var x :| x in s;
      SubsetSize(s - {x}, t - {x});
    }
  }

  lemma PermutationCovers(order: seq<nat>, n: nat, i: nat)
    requires Permutation(order, n) && i < n
    ensures i in order
  {
    DistinctCardinality(order);
    var s, t := Elements(order), Below(n);
    assert s <= t;
    if i !in s {
      assert s <= t - {i};
      SubsetSize(s, t - {i});
    }
  }

  /** Every jump is run at exactly one of the chain's steps, the one the order gives it, and the end is reached. */
  lemma EachJumpOnce(code: seq<Instr>, a: nat, order: seq<nat>, i: nat, taken: seq<bool>)
    requires ChainAt(code, a, order) && i < |order| && |taken| == |order| + 1
    ensures exists k :: 0 <= k < |order| && order[k] == i
                        && forall s :: 0 <= s <= |taken| ==>
                             (Run(code, taken[..s], a) == At(Slot(a, i)) <==> s == k + 1)
    ensures Run(code, taken, a) == At(Slot(a, |order|))
  {
    PermutationCovers(order, |order|, i);
    var k :| 0 <= k < |order| && order[k] == i;
    ChainRuns(code, a, order, 0, taken);
    forall s | 0 <= s <= |taken|
      ensures Run(code, taken[..s], a) == At(Slot(a, i)) <==> s == k + 1
    {
      ChainRuns(code, a, order, 0, taken[..s]);
    }
  }
}
