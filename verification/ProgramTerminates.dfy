/** Every program put together from base instructions, atomic streams, counter loops and jump chains runs to its end. */
module ProgramTerminates {
  import opened InstrStream
  import opened BranchTargets
  import opened ProgramFlow
  import opened JumpChain
  import opened StreamAssembly
  import opened ForwardBranches

  /** Position `j` is the one the chain of stream `q` reaches at its step `m`. */
  ghost predicate OnChain(streams: seq<seq<Instr>>, ks: seq<nat>, orders: seq<seq<nat>>, q: nat, m: nat, j: nat)
    requires |ks| == |streams| == |orders|
  {
    && q < |streams| && orders[q] != [] && m <= |orders[q]| + 1
    && ChainPlace(StreamStart(streams, ks, |ks|, q), orders[q], m) == j
  }

  /** Chain positions are ranked by when the chain reaches them, all others by where they stand. */
  ghost function RankOf(streams: seq<seq<Instr>>, ks: seq<nat>, orders: seq<seq<nat>>, j: nat): nat
    requires |ks| == |streams| == |orders|
  {
    if q: nat, m: nat :| OnChain(streams, ks, orders, q, m, j) then StreamStart(streams, ks, |ks|, q) + m else j
  }

  lemma PlaceInStream(base: seq<Instr>, streams: seq<seq<Instr>>, ks: seq<nat>, orders: seq<seq<nat>>, q: nat, m: nat,
                      j: nat)
    requires Planned(base, streams, ks, orders) && OnChain(streams, ks, orders, q, m, j)
    ensures streams[q] != [] && |streams[q]| == |orders[q]| + 2 && InStream(streams, ks, |ks|, q, j)
  {
    assert DirectedStream(streams[q], orders[q]);
  }

  lemma StreamOnChain(base: seq<Instr>, streams: seq<seq<Instr>>, ks: seq<nat>, orders: seq<seq<nat>>, q: nat, j: nat)
    requires Planned(base, streams, ks, orders) && InStream(streams, ks, |ks|, q, j) && orders[q] != []
    ensures exists m: nat :: OnChain(streams, ks, orders, q, m, j)
  {
    assert DirectedStream(streams[q], orders[q]);
    var a, order := StreamStart(streams, ks, |ks|, q), orders[q];
    var n := |order|;
    if j == a {
      assert OnChain(streams, ks, orders, q, 0, j);
    } else if j == Slot(a, n) {
      assert OnChain(streams, ks, orders, q, n + 1, j);
    } else {
      PermutationCovers(order, n, j - a - 1);
      var k :| 0 <= k < n && order[k] == j - a - 1;
      assert OnChain(streams, ks, orders, q, k + 1, j);
    }
  }

  lemma OnOneChain(base: seq<Instr>, streams: seq<seq<Instr>>, ks: seq<nat>, orders: seq<seq<nat>>,
                   q: nat, m: nat, q': nat, m': nat, j: nat)
    requires Planned(base, streams, ks, orders)
    requires OnChain(streams, ks, orders, q, m, j) && OnChain(streams, ks, orders, q', m', j)
    ensures q == q' && m == m'
  {
    PlaceInStream(base, streams, ks, orders, q, m, j);
    PlaceInStream(base, streams, ks, orders, q', m', j);
    if q != q' {
      StreamsApart(base, streams, ks, |ks|, q, q');
    } else {
      assert DirectedStream(streams[q], orders[q]);
    }
  }

  lemma RankOnChain(base: seq<Instr>, streams: seq<seq<Instr>>, ks: seq<nat>, orders: seq<seq<nat>>, q: nat, m: nat,
                    j: nat)
    requires Planned(base, streams, ks, orders) && OnChain(streams, ks, orders, q, m, j)
    ensures RankOf(streams, ks, orders, j) == StreamStart(streams, ks, |ks|, q) + m
  {
    var p: nat, i: nat :| OnChain(streams, ks, orders, p, i, j) &&
                RankOf(streams, ks, orders, j) == StreamStart(streams, ks, |ks|, p) + i;
    OnOneChain(base, streams, ks, orders, q, m, p, i, j);
  }

  /** Moving to a later position outside the chain one is in raises the rank. */
  lemma RankRises(base: seq<Instr>, streams: seq<seq<Instr>>, ks: seq<nat>, orders: seq<seq<nat>>, i: nat, j: nat)
    requires Planned(base, streams, ks, orders) && i < j
    requires forall q: nat, m: nat :: OnChain(streams, ks, orders, q, m, i) ==> !InStream(streams, ks, |ks|, q, j)
    ensures RankOf(streams, ks, orders, i) < RankOf(streams, ks, orders, j)
  {
    var n := |ks|;
    if q: nat, m: nat :| OnChain(streams, ks, orders, q, m, i) {
      RankOnChain(base, streams, ks, orders, q, m, i);
      PlaceInStream(base, streams, ks, orders, q, m, i);
      if q': nat, m': nat :| OnChain(streams, ks, orders, q', m', j) {
        RankOnChain(base, streams, ks, orders, q', m', j);
        PlaceInStream(base, streams, ks, orders, q', m', j);
        StreamsApart(base, streams, ks, n, q, q');
      }
    } else if q': nat, m': nat :| OnChain(streams, ks, orders, q', m', j) {
      RankOnChain(base, streams, ks, orders, q', m', j);
      PlaceInStream(base, streams, ks, orders, q', m', j);
      if InStream(streams, ks, n, q', i) {
        StreamOnChain(base, streams, ks, orders, q', i);
      }
    }
  }

  lemma RankBelow(base: seq<Instr>, streams: seq<seq<Instr>>, ks: seq<nat>, orders: seq<seq<nat>>, j: nat)
    requires Planned(base, streams, ks, orders) && j < |Assembled(base, streams, ks, |ks|)|
    ensures RankOf(streams, ks, orders, j) < |Assembled(base, streams, ks, |ks|)|
  {
    if q: nat, m: nat :| OnChain(streams, ks, orders, q, m, j) {
      RankOnChain(base, streams, ks, orders, q, m, j);
      PlaceInStream(base, streams, ks, orders, q, m, j);
      StreamContiguous(base, streams, ks, |ks|, q);
    }
  }

  /** An instruction that is no jump and has no target of its own falls through or branches forward. */
  lemma ForwardStep(list: seq<Instr>, steps: seq<nat>, r: seq<Instr>, j: nat, taken: bool)
    requires IsPostProcessed(list, steps, r) && Unnumbered(list) && EndsWithLabel(list)
    requires (forall i :: 0 <= i < |steps| ==> steps[i] >= 1) && j < |list| && BaseInstr(list[j])
    ensures Next(r, j, taken).At? && j < Next(r, j, taken).pos <= |r|
  {
    if Assignable(list[j]) {
      BranchResolves(list, steps, r, j);
    }
  }

  /** Off the chains, every instruction falls through or branches forward, or goes round a loop. */
  lemma OffChainStep(base: seq<Instr>, streams: seq<seq<Instr>>, ks: seq<nat>, orders: seq<seq<nat>>,
                     steps: seq<nat>, r: seq<Instr>, j: nat, taken: bool)
    requires Planned(base, streams, ks, orders)
    requires IsPostProcessed(Assembled(base, streams, ks, |ks|), steps, r)
    requires forall i :: 0 <= i < |steps| ==> steps[i] >= 1
    requires j < |r| && forall q: nat, m: nat :: !OnChain(streams, ks, orders, q, m, j)
    ensures var p := Next(r, j, taken);
            p.At? && p.pos <= |r| && (j < p.pos || (LoopBranch(r[j]) && taken))
  {
    var list := Assembled(base, streams, ks, |ks|);
    if BaseInstr(list[j]) {
      AssembledShape(base, streams, ks, orders);
      ForwardStep(list, steps, r, j, taken);
    } else {
      var q := LoopStreamAt(base, streams, ks, orders, j);
      LoopStep(base, streams, ks, orders, steps, r, q, j, taken);
    }
  }

  /** Off the chains, what is not like a base instruction is the branch of a loop. */
  lemma LoopStreamAt(base: seq<Instr>, streams: seq<seq<Instr>>, ks: seq<nat>, orders: seq<seq<nat>>, j: nat)
    returns (q: nat)
    requires Planned(base, streams, ks, orders) && j < |Assembled(base, streams, ks, |ks|)|
    requires !BaseInstr(Assembled(base, streams, ks, |ks|)[j])
    requires forall q: nat, m: nat :: !OnChain(streams, ks, orders, q, m, j)
    ensures InStream(streams, ks, |ks|, q, j) && Assembled(base, streams, ks, |ks|)[j].atomic
    ensures LoopBranchIn(streams[q], Assembled(base, streams, ks, |ks|)[j])
  {
    var n := |ks|;
    Covered(base, streams, ks, n, j);
    if i: nat :| InBase(base, streams, ks, n, i, j) {
      BaseStaysBase(base, streams, ks, orders, i, j);
    }
    q :| InStream(streams, ks, n, q, j);
    assert DirectedStream(streams[q], orders[q]);
    if orders[q] != [] {
      StreamOnChain(base, streams, ks, orders, q, j);
    }
    StreamElement(base, streams, ks, n, q, j - StreamStart(streams, ks, n, q));
  }

  lemma BaseStaysBase(base: seq<Instr>, streams: seq<seq<Instr>>, ks: seq<nat>, orders: seq<seq<nat>>, i: nat, j: nat)
    requires Planned(base, streams, ks, orders) && InBase(base, streams, ks, |ks|, i, j)
    requires j < |Assembled(base, streams, ks, |ks|)|
    ensures BaseInstr(Assembled(base, streams, ks, |ks|)[j])
  {
    BaseKept(base, streams, ks, |ks|, i);
    assert BaseInstr(base[i]);
  }

  /** Its label is still there. */
  lemma LoopStep(base: seq<Instr>, streams: seq<seq<Instr>>, ks: seq<nat>, orders: seq<seq<nat>>,
                 steps: seq<nat>, r: seq<Instr>, q: nat, j: nat, taken: bool)
    requires Planned(base, streams, ks, orders)
    requires IsPostProcessed(Assembled(base, streams, ks, |ks|), steps, r) && j < |r|
    requires InStream(streams, ks, |ks|, q, j) && Assembled(base, streams, ks, |ks|)[j].atomic
    requires LoopBranchIn(streams[q], Assembled(base, streams, ks, |ks|)[j])
    ensures var p := Next(r, j, taken);
            p.At? && p.pos <= |r| && (j < p.pos || (LoopBranch(r[j]) && taken))
  {
    var n, list, s := |ks|, Assembled(base, streams, ks, |ks|), streams[q];
    assert DirectedStream(s, orders[q]);
    AssembledShape(base, streams, ks, orders);
    AtomicKept(list, steps, r, j);
    var i :| 0 <= i < |s| && s[i].hasLabel && s[i].tag == Named(list[j].target.s);
    StreamElement(base, streams, ks, n, q, i);
    AtomicKept(list, steps, r, StreamStart(streams, ks, n, q) + i);
    assert FindName(r, 0, list[j].target.s).At?;
  }

  lemma AssembledShape(base: seq<Instr>, streams: seq<seq<Instr>>, ks: seq<nat>, orders: seq<seq<nat>>)
    requires Planned(base, streams, ks, orders)
    ensures Unnumbered(Assembled(base, streams, ks, |ks|)) && EndsWithLabel(Assembled(base, streams, ks, |ks|))
  {
    AssembledUnnumbered(base, streams, ks, |ks|);
    AssembledEnd(base, streams, ks, orders);
  }

  lemma AssembledEnd(base: seq<Instr>, streams: seq<seq<Instr>>, ks: seq<nat>, orders: seq<seq<nat>>)
    requires Planned(base, streams, ks, orders)
    ensures EndsWithLabel(Assembled(base, streams, ks, |ks|))
  {
    LastKept(base, streams, ks, |ks|);
    BaseKept(base, streams, ks, |ks|, |base| - 1);
  }

  /** On a chain before its end, the next place is the chain's next. */
  lemma OnChainStep(base: seq<Instr>, streams: seq<seq<Instr>>, ks: seq<nat>, orders: seq<seq<nat>>,
                    steps: seq<nat>, r: seq<Instr>, q: nat, m: nat, j: nat, taken: bool)
    requires Planned(base, streams, ks, orders) && OnChain(streams, ks, orders, q, m, j) && m <= |orders[q]|
    requires IsPostProcessed(Assembled(base, streams, ks, |ks|), steps, r) && j < |r|
    ensures var p := Next(r, j, taken); p.At? && p.pos < |r| && OnChain(streams, ks, orders, q, m + 1, p.pos)
  {
    ChainKept(base, streams, ks, orders, steps, r, q);
    ChainNext(r, StreamStart(streams, ks, |ks|, q), orders[q], m, taken);
    ChainPlaceInside(base, streams, ks, orders, q, m + 1);
  }

  /** From the end of a chain control goes forward, and so out of its stream. */
  lemma ChainEndStep(base: seq<Instr>, streams: seq<seq<Instr>>, ks: seq<nat>, orders: seq<seq<nat>>,
                     steps: seq<nat>, r: seq<Instr>, q: nat, j: nat, taken: bool)
    requires Planned(base, streams, ks, orders) && q < |streams|
    requires OnChain(streams, ks, orders, q, |orders[q]| + 1, j) && j < |r|
    requires IsPostProcessed(Assembled(base, streams, ks, |ks|), steps, r)
    requires forall i :: 0 <= i < |steps| ==> steps[i] >= 1
    ensures Next(r, j, taken).At? && j < Next(r, j, taken).pos <= |r|
  {
    var s := streams[q];
    assert DirectedStream(s, orders[q]);
    StreamElement(base, streams, ks, |ks|, q, |s| - 1);
    AssembledShape(base, streams, ks, orders);
    ForwardStep(Assembled(base, streams, ks, |ks|), steps, r, j, taken);
  }

  lemma ChainPlaceInside(base: seq<Instr>, streams: seq<seq<Instr>>, ks: seq<nat>, orders: seq<seq<nat>>, q: nat,
                         m: nat)
    requires Planned(base, streams, ks, orders) && q < |streams| && orders[q] != [] && m <= |orders[q]| + 1
    ensures ChainPlace(StreamStart(streams, ks, |ks|, q), orders[q], m) < |Assembled(base, streams, ks, |ks|)|
  {
    var j := ChainPlace(StreamStart(streams, ks, |ks|, q), orders[q], m);
    PlaceInStream(base, streams, ks, orders, q, m, j);
    StreamContiguous(base, streams, ks, |ks|, q);
  }

  lemma LeavesStream(base: seq<Instr>, streams: seq<seq<Instr>>, ks: seq<nat>, orders: seq<seq<nat>>, q: nat, j: nat,
                     p: nat)
    requires Planned(base, streams, ks, orders) && q < |streams| && OnChain(streams, ks, orders, q, |orders[q]| + 1, j)
    requires j < p
    ensures forall q': nat, m': nat :: OnChain(streams, ks, orders, q', m', j) ==>
      !InStream(streams, ks, |ks|, q', p)
  {
    PlaceInStream(base, streams, ks, orders, q, |orders[q]| + 1, j);
    forall q': nat, m': nat | OnChain(streams, ks, orders, q', m', j)
      ensures !InStream(streams, ks, |ks|, q', p)
    {
      OnOneChain(base, streams, ks, orders, q, |orders[q]| + 1, q', m', j);
    }
  }

  /** The step from `j` to `p` raises the rank, or leaves the program at its end. */
  ghost predicate Rises(streams: seq<seq<Instr>>, ks: seq<nat>, orders: seq<seq<nat>>, size: nat, j: nat, p: Place)
    requires |ks| == |streams| == |orders|
  {
    && p.At? && p.pos <= size
    && (p.pos < size ==> RankOf(streams, ks, orders, j) < RankOf(streams, ks, orders, p.pos))
  }

  lemma OnChainRises(base: seq<Instr>, streams: seq<seq<Instr>>, ks: seq<nat>, orders: seq<seq<nat>>,
                     steps: seq<nat>, r: seq<Instr>, q: nat, m: nat, j: nat, taken: bool)
    requires Planned(base, streams, ks, orders) && OnChain(streams, ks, orders, q, m, j)
    requires IsPostProcessed(Assembled(base, streams, ks, |ks|), steps, r) && j < |r|
    requires forall i :: 0 <= i < |steps| ==> steps[i] >= 1
    ensures Rises(streams, ks, orders, |r|, j, Next(r, j, taken))
  {
    if m <= |orders[q]| {
      OnChainStep(base, streams, ks, orders, steps, r, q, m, j, taken);
      RankOnChain(base, streams, ks, orders, q, m, j);
      RankOnChain(base, streams, ks, orders, q, m + 1, Next(r, j, taken).pos);
    } else {
      ChainEndStep(base, streams, ks, orders, steps, r, q, j, taken);
      LeavesStream(base, streams, ks, orders, q, j, Next(r, j, taken).pos);
      RankRises(base, streams, ks, orders, j, Next(r, j, taken).pos);
    }
  }

  lemma StepRanked(base: seq<Instr>, streams: seq<seq<Instr>>, ks: seq<nat>, orders: seq<seq<nat>>,
                   steps: seq<nat>, r: seq<Instr>, j: nat, taken: bool)
    requires Planned(base, streams, ks, orders)
    requires IsPostProcessed(Assembled(base, streams, ks, |ks|), steps, r)
    requires forall i :: 0 <= i < |steps| ==> steps[i] >= 1
    requires j < |r|
    ensures var p := Next(r, j, taken);
            || Rises(streams, ks, orders, |r|, j, p)
            || (p.At? && p.pos <= |r| && LoopBranch(r[j]) && taken)
  {
    if q: nat, m: nat :| OnChain(streams, ks, orders, q, m, j) {
      OnChainRises(base, streams, ks, orders, steps, r, q, m, j, taken);
    } else {
      OffChainStep(base, streams, ks, orders, steps, r, j, taken);
      var p := Next(r, j, taken);
      if j < p.pos {
        RankRises(base, streams, ks, orders, j, p.pos);
      }
    }
  }

  /**
   * However the streams are placed, the jump orders shuffled, the branch distances drawn and the branches
   * decided, the program ends, and takes no more steps than it has instructions, and as many again for each
   * time a counter loop goes round.
   */
  lemma AssembledProgramTerminates(base: seq<Instr>, streams: seq<seq<Instr>>, ks: seq<nat>, orders: seq<seq<nat>>,
                                   steps: seq<nat>, r: seq<Instr>)
    requires Planned(base, streams, ks, orders)
    requires IsPostProcessed(Assembled(base, streams, ks, |ks|), steps, r)
    requires forall i :: 0 <= i < |steps| ==> steps[i] >= 1
    ensures FinishesWithin(r, 0, |r|)
  {
    var rank := seq(|r|, j requires 0 <= j < |r| => RankOf(streams, ks, orders, j));
    forall j | 0 <= j < |r|
      ensures rank[j] < |r|
    {
      RankBelow(base, streams, ks, orders, j);
    }
    forall j, taken | 0 <= j < |r|
      ensures RankedStep(r, rank, j, taken)
    {
      StepRanked(base, streams, ks, orders, steps, r, j, taken);
    }
    RankedFinishes(r, rank);
  }
}
