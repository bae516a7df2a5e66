/** Directed-stream insertion, label numbering and branch-target choice (pygen/pygen_src/riscv_instr_sequence.py). */
module BranchTargets {
  import opened InstrStream

  // ---------------------------------------------------------------- what the steps compute

  /** Each stream goes in before a non-atomic instruction of the list so far; into an empty list it goes alone. */
  ghost predicate Legal(base: seq<Instr>, streams: seq<seq<Instr>>, ks: seq<nat>, n: nat)
    requires n <= |streams| && n <= |ks|
    decreases n, 0
  {
    n == 0 ||
    (Legal(base, streams, ks, n - 1) &&
     var m := Assembled(base, streams, ks, n - 1);
     if m == [] then ks[n - 1] == 0 else ks[n - 1] < |m| && !m[ks[n - 1]].atomic)
  }

  /** The list after the first `n` insertions. */
  ghost function Assembled(base: seq<Instr>, streams: seq<seq<Instr>>, ks: seq<nat>, n: nat): seq<Instr>
    requires n <= |streams| && n <= |ks| && Legal(base, streams, ks, n)
    decreases n, 1
  {
    if n == 0 then base else Splice(Assembled(base, streams, ks, n - 1), streams[n - 1], ks[n - 1])
  }

  /** The instructions that get a numeric label. */
  predicate Numberable(x: Instr) {
    x.hasLabel && !x.atomic
  }

  /** How many labels are given out before position `n`. */
  function Count(list: seq<Instr>, n: nat): (c: nat)
    requires n <= |list|
    ensures c <= n
  {
    if n == 0 then 0 else Count(list, n - 1) + (if Numberable(list[n - 1]) then 1 else 0)
  }

  /** The branches that get a target. */
  predicate Assignable(x: Instr) {
    x.category == BRANCH && !x.branchAssigned && !x.isIllegal
  }

  function Numbered(list: seq<Instr>, i: nat): Instr
    requires i < |list|
  {
    var x, c := list[i], Count(list, i);
    if Numberable(x) then x.(idx := c, tag := Numeric(c), isLocalNumeric := true) else x.(idx := c)
  }

  /** The label number the branch at `i` is sent to, `steps[i]` being the distance drawn for it. */
  function TargetOf(list: seq<Instr>, steps: seq<nat>, i: nat): int
    requires i < |steps| <= |list|
  {
    CappedLabel(Count(list, i) + steps[i], Count(list, |list|))
  }

  /** Some branch before position `n` is sent to label `t`. */
  ghost predicate Targeted(list: seq<Instr>, steps: seq<nat>, t: int, n: nat)
    requires n <= |steps| <= |list|
  {
    exists i :: 0 <= i < n && Assignable(list[i]) && TargetOf(list, steps, i) == t
  }

  ghost function Final(list: seq<Instr>, steps: seq<nat>, i: nat): Instr
    requires i < |steps| <= |list|
  {
    var x := Numbered(list, i);
    var y := if Assignable(x) then x.(target := Forward(TargetOf(list, steps, i)), branchAssigned := true) else x;
    if y.hasLabel && y.isLocalNumeric && !Targeted(list, steps, Count(list, i), i + 1) then y.(hasLabel := false) else y
  }

  ghost predicate IsPostProcessed(list: seq<Instr>, steps: seq<nat>, r: seq<Instr>) {
    && |list| == |steps| == |r|
    && forall i :: 0 <= i < |list| ==> r[i] == Final(list, steps, i)
  }

  ghost predicate StepsWithin(steps: seq<nat>, maxStep: nat) {
    forall i :: 0 <= i < |steps| ==> 1 <= steps[i] <= maxStep
  }

  /** Instructions as they come from the generator: no local numeric label yet. */
  ghost predicate Unnumbered(list: seq<Instr>) {
    forall i :: 0 <= i < |list| ==> !list[i].isLocalNumeric
  }

  lemma {:induction false} LegalStable(base: seq<Instr>, streams: seq<seq<Instr>>, ks: seq<nat>, more: seq<nat>, n: nat)
    requires n <= |streams| && n <= |ks| && ks <= more && Legal(base, streams, ks, n)
    ensures Legal(base, streams, more, n)
    ensures Assembled(base, streams, more, n) == Assembled(base, streams, ks, n)
  {
    if n == 0 {
    } else {
      LegalStable(base, streams, ks, more, n - 1);
    }
  }

  /** One more insertion, of stream `n` at `k`. */
  lemma PlacedNext(base: seq<Instr>, streams: seq<seq<Instr>>, ks: seq<nat>, n: nat, k: nat, after: seq<Instr>)
    requires n == |ks| < |streams| && Legal(base, streams, ks, n)
    requires var m := Assembled(base, streams, ks, n);
             if m == [] then k == 0 && after == streams[n]
             else k < |m| && !m[k].atomic && after == Splice(m, streams[n], k)
    ensures Legal(base, streams, ks + [k], n + 1) && Assembled(base, streams, ks + [k], n + 1) == after
  {
    LegalStable(base, streams, ks, ks + [k], n);
    var m := Assembled(base, streams, ks, n);
    assert m == [] ==> streams[n] == Splice(m, streams[n], 0);
  }

  ghost predicate FirstEmpty(streams: seq<seq<Instr>>, n: nat)
    requires n <= |streams|
  {
    forall m :: 0 <= m < n ==> streams[m] == []
  }

  ghost predicate FirstAtomic(streams: seq<seq<Instr>>, n: nat)
    requires n <= |streams|
  {
    forall m :: 0 <= m < n ==> AllAtomic(streams[m])
  }

  /** There is room for stream `n`: nothing put together so far, or something in it that is not atomic. */
  ghost predicate Room(base: seq<Instr>, streams: seq<seq<Instr>>, n: nat)
    requires n <= |streams|
  {
    (base == [] && FirstEmpty(streams, n)) || !(AllAtomic(base) && FirstAtomic(streams, n))
  }

  lemma SpliceAtomic(list: seq<Instr>, s: seq<Instr>, k: nat)
    requires k <= |list|
    ensures AllAtomic(Splice(list, s, k)) <==> AllAtomic(list) && AllAtomic(s)
    ensures Splice(list, s, k) == [] <==> list == [] && s == []
  {
    var r := Splice(list, s, k);
    assert |r| == |list| + |s|;
    if AllAtomic(r) {
      forall i | 0 <= i < |list|
        ensures list[i].atomic
      {
        assert list[i] == r[if i < k then i else i + |s|];
      }
      forall i | 0 <= i < |s|
        ensures s[i].atomic
      {
        assert s[i] == r[k + i];
      }
    }
  }

  lemma {:induction false} AssembledRoom(base: seq<Instr>, streams: seq<seq<Instr>>, ks: seq<nat>, n: nat)
    requires n <= |streams| && n <= |ks| && Legal(base, streams, ks, n)
    ensures var list := Assembled(base, streams, ks, n);
            && (AllAtomic(list) <==> AllAtomic(base) && FirstAtomic(streams, n))
            && (list == [] <==> base == [] && FirstEmpty(streams, n))
  {
    if n == 0 {
    } else {
      AssembledRoom(base, streams, ks, n - 1);
      assert FirstAtomic(streams, n) <==> FirstAtomic(streams, n - 1) && AllAtomic(streams[n - 1]);
      assert FirstEmpty(streams, n) <==> FirstEmpty(streams, n - 1) && streams[n - 1] == [];
      SpliceAtomic(Assembled(base, streams, ks, n - 1), streams[n - 1], ks[n - 1]);
    }
  }

  lemma {:induction false} AssembledUnnumbered(base: seq<Instr>, streams: seq<seq<Instr>>, ks: seq<nat>, n: nat)
    requires n <= |streams| && n <= |ks| && Legal(base, streams, ks, n)
    requires Unnumbered(base) && forall s :: s in streams ==> Unnumbered(s)
    ensures Unnumbered(Assembled(base, streams, ks, n))
  {
    if n == 0 {
    } else {
      AssembledUnnumbered(base, streams, ks, n - 1);
      assert streams[n - 1] in streams;
    }
  }

  lemma FinalStable(list: seq<Instr>, steps: seq<nat>, more: seq<nat>, i: nat)
    requires i < |steps| <= |more| <= |list| && steps <= more
    ensures Final(list, more, i) == Final(list, steps, i)
  {
    var t := Count(list, i);
    TargetedStable(list, steps, more, t, i + 1);
  }

  lemma TargetedStable(list: seq<Instr>, steps: seq<nat>, more: seq<nat>, t: int, n: nat)
    requires n <= |steps| <= |more| <= |list| && steps <= more
    ensures Targeted(list, more, t, n) == Targeted(list, steps, t, n)
  {
    assert forall i :: 0 <= i < n ==> TargetOf(list, more, i) == TargetOf(list, steps, i);
  }

  lemma TargetedStep(list: seq<Instr>, steps: seq<nat>, step: nat, t: int)
    requires |steps| < |list|
    ensures var n, more := |steps|, steps + [step];
            Targeted(list, more, t, n + 1) <==>
            Targeted(list, steps, t, n) || (Assignable(list[n]) && TargetOf(list, more, n) == t)
  {
    var n, more := |steps|, steps + [step];
    TargetedStable(list, steps, more, t, n);
    assert Targeted(list, more, t, n) ==> Targeted(list, more, t, n + 1);
  }

  /** Drawing one more distance adds the target of that branch, and settles nothing anew about those before. */
  lemma StepDrawn(list: seq<Instr>, steps: seq<nat>, step: nat)
    requires |steps| < |list|
    ensures var n, more := |steps|, steps + [step];
            && (forall t :: Targeted(list, more, t, n + 1) <==>
                 Targeted(list, steps, t, n) || (Assignable(list[n]) && TargetOf(list, more, n) == t))
            && forall i :: 0 <= i < n ==> Final(list, more, i) == Final(list, steps, i)
  {
    var n, more := |steps|, steps + [step];
    forall t
      ensures Targeted(list, more, t, n + 1) <==>
              Targeted(list, steps, t, n) || (Assignable(list[n]) && TargetOf(list, more, n) == t)
    {
      TargetedStep(list, steps, step, t);
    }
    forall i | 0 <= i < n
      ensures Final(list, more, i) == Final(list, steps, i)
    {
      FinalStable(list, steps, more, i);
    }
  }

  /** A numeric label no branch so far is sent to is dropped. */
  function Settled(x: Instr, branchTarget: set<int>): Instr
    requires x.isLocalNumeric ==> x.tag.Numeric?
  {
    if x.hasLabel && x.isLocalNumeric && x.tag.n !in branchTarget then x.(hasLabel := false) else x
  }

  lemma SettledIsFinal(list: seq<Instr>, steps: seq<nat>, j: nat, x: Instr, branchTarget: set<int>)
    requires j < |steps| <= |list| && Unnumbered(list)
    requires x == if Assignable(list[j])
                  then Numbered(list, j).(target := Forward(TargetOf(list, steps, j)), branchAssigned := true)
                  else Numbered(list, j)
    requires forall t :: t in branchTarget <==> Targeted(list, steps, t, j + 1)
    ensures (x.isLocalNumeric ==> x.tag.Numeric?) && Settled(x, branchTarget) == Final(list, steps, j)
  {
  }

  /** How many branches are assigned before position `n`. */
  function BranchCount(list: seq<Instr>, n: nat): nat
    requires n <= |list|
  {
    if n == 0 then 0 else BranchCount(list, n - 1) + (if Assignable(list[n - 1]) then 1 else 0)
  }

  /** Lists of 30 distances, all shuffles of the first. */
  ghost predicate Shuffles(draws: seq<seq<nat>>) {
    forall d :: 0 <= d < |draws| ==> |draws[d]| == 30 && multiset(draws[d]) == multiset(draws[0])
  }

  /** The lists put end to end. */
  ghost function EndToEnd(draws: seq<seq<nat>>): (all: seq<nat>)
    requires Shuffles(draws)
    ensures |all| == 30 * |draws|
  {
    if draws == [] then [] else EndToEnd(draws[..|draws| - 1]) + draws[|draws| - 1]
  }

  /** The branches use up the lists in turn, each list from its front. */
  ghost predicate StepsDrawn(list: seq<Instr>, steps: seq<nat>, draws: seq<seq<nat>>)
    requires |steps| <= |list| && Shuffles(draws)
  {
    DrawnFrom(list, steps, EndToEnd(draws))
  }

  /** The `k`-th branch has the `k`-th distance. */
  ghost predicate DrawnFrom(list: seq<Instr>, steps: seq<nat>, all: seq<nat>)
    requires |steps| <= |list|
  {
    forall i :: 0 <= i < |steps| && Assignable(list[i]) ==>
      BranchCount(list, i) < |all| && steps[i] == all[BranchCount(list, i)]
  }

  /** `cnt` distances of the last list, `idx`, have been used. */
  ghost predicate DrawState(list: seq<Instr>, steps: seq<nat>, draws: seq<seq<nat>>, idx: seq<nat>, cnt: nat) {
    && |idx| == 30 && |steps| <= |list|
    && Shuffles(draws) && draws != [] && idx == draws[|draws| - 1]
    && BranchCount(list, |steps|) == 30 * (|draws| - 1) + cnt && StepsDrawn(list, steps, draws)
  }

  lemma NoDraw(list: seq<Instr>, steps: seq<nat>, draws: seq<seq<nat>>, idx: seq<nat>, cnt: nat, step: nat)
    requires |steps| < |list| && DrawState(list, steps, draws, idx, cnt) && !Assignable(list[|steps|])
    ensures DrawState(list, steps + [step], draws, idx, cnt)
  {
  }

  lemma LastList(draws: seq<seq<nat>>, cnt: nat)
    requires Shuffles(draws) && draws != [] && cnt < 30
    ensures 30 * (|draws| - 1) + cnt < |EndToEnd(draws)|
    ensures EndToEnd(draws)[30 * (|draws| - 1) + cnt] == draws[|draws| - 1][cnt]
  {
    assert |EndToEnd(draws[..|draws| - 1])| == 30 * (|draws| - 1);
  }

  lemma DrawUsed(list: seq<Instr>, steps: seq<nat>, draws: seq<seq<nat>>, cnt: nat)
    requires |steps| < |list| && Shuffles(draws) && draws != [] && StepsDrawn(list, steps, draws) && cnt < 30
    requires BranchCount(list, |steps|) == 30 * (|draws| - 1) + cnt
    ensures StepsDrawn(list, steps + [draws[|draws| - 1][cnt]], draws)
  {
    LastList(draws, cnt);
    OneMoreDrawn(list, steps, EndToEnd(draws), draws[|draws| - 1][cnt]);
  }

  lemma OneMoreDrawn(list: seq<Instr>, steps: seq<nat>, all: seq<nat>, v: nat)
    requires |steps| < |list| && BranchCount(list, |steps|) < |all| && all[BranchCount(list, |steps|)] == v
    requires DrawnFrom(list, steps, all)
    ensures DrawnFrom(list, steps + [v], all)
  {
  }

  lemma MoreDraws(list: seq<Instr>, steps: seq<nat>, draws: seq<seq<nat>>, next: seq<nat>)
    requires |steps| <= |list| && Shuffles(draws) && draws != [] && StepsDrawn(list, steps, draws)
    requires |next| == 30 && multiset(next) == multiset(draws[|draws| - 1])
    ensures Shuffles(draws + [next]) && StepsDrawn(list, steps, draws + [next])
  {
    assert (draws + [next])[..|draws|] == draws;
    assert EndToEnd(draws + [next]) == EndToEnd(draws) + next;
  }

  /** The instructions before `|steps|` are done with, and `targets` holds the labels they are sent to. */
  ghost predicate Progress(list: seq<Instr>, steps: seq<nat>, now: seq<Instr>, targets: set<int>) {
    && |steps| <= |list| == |now|
    && (forall t :: t in targets <==> Targeted(list, steps, t, |steps|))
    && (forall i :: |steps| <= i < |list| ==> now[i] == Numbered(list, i))
    && forall i :: 0 <= i < |steps| ==> now[i] == Final(list, steps, i)
  }

  lemma ProgressStep(list: seq<Instr>, steps: seq<nat>, step: nat, now: seq<Instr>, targets: set<int>,
                     x: Instr, after: set<int>)
    requires Progress(list, steps, now, targets) && |steps| < |list| && Unnumbered(list)
    requires var j, t := |steps|, TargetOf(list, steps + [step], |steps|);
             if Assignable(list[j]) then
               x == Numbered(list, j).(target := Forward(t), branchAssigned := true) && after == targets + {t}
             else x == Numbered(list, j) && after == targets
    ensures x.isLocalNumeric ==> x.tag.Numeric?
    ensures Progress(list, steps + [step], now[|steps| := Settled(x, after)], after)
  {
    StepDrawn(list, steps, step);
    SettledIsFinal(list, steps + [step], |steps|, x, after);
  }

  /** How far the loop that assigns the branches has got. */
  ghost predicate Assigning(list: seq<Instr>, steps: seq<nat>, draws: seq<seq<nat>>, idx: seq<nat>, cnt: nat,
                            maxStep: nat, now: seq<Instr>, targets: set<int>) {
    && StepsWithin(steps, maxStep) && StepsWithin(idx, maxStep) && cnt < 30
    && DrawState(list, steps, draws, idx, cnt)
    && Progress(list, steps, now, targets)
  }

  lemma AssigningStarts(list: seq<Instr>, idx: seq<nat>, maxStep: nat, now: seq<Instr>)
    requires |idx| == 30 && StepsWithin(idx, maxStep) && |now| == |list|
    requires forall i :: 0 <= i < |list| ==> now[i] == Numbered(list, i)
    ensures Assigning(list, [], [idx], idx, 0, maxStep, now, {})
  {
  }

  /** What drawing moves on to: the next of the list, or the front of a shuffle of it. */
  ghost predicate NextOf(idx: seq<nat>, cnt: nat, drawn: seq<nat>, next: nat) {
    if cnt + 1 < |idx| then drawn == idx && next == cnt + 1
    else |drawn| == |idx| && multiset(drawn) == multiset(idx) && next == 0
  }

  lemma DrawStep(list: seq<Instr>, steps: seq<nat>, draws: seq<seq<nat>>, idx: seq<nat>, cnt: nat,
                 drawn: seq<nat>, next: nat)
    returns (all: seq<seq<nat>>)
    requires |steps| < |list| && DrawState(list, steps, draws, idx, cnt) && cnt < 30
    requires if Assignable(list[|steps|]) then NextOf(idx, cnt, drawn, next) else drawn == idx && next == cnt
    ensures DrawState(list, steps + [if Assignable(list[|steps|]) then idx[cnt] else 1], all, drawn, next) && next < 30
  {
    all := draws;
    if Assignable(list[|steps|]) {
      DrawUsed(list, steps, draws, cnt);
      if cnt == 29 {
        MoreDraws(list, steps + [idx[cnt]], draws, drawn);
        all := draws + [drawn];
      }
    } else {
      NoDraw(list, steps, draws, idx, cnt, 1);
    }
  }

  lemma AtNext(list: seq<Instr>, steps: seq<nat>, now: seq<Instr>, targets: set<int>)
    requires Progress(list, steps, now, targets) && |steps| < |list|
    ensures now[|steps|] == Numbered(list, |steps|)
  {
  }

  /** `x` is `now` as the loop leaves it, with the target, the drawn list and the noted labels that go with it. */
  ghost predicate Assigned(now: Instr, labels: nat, cnt: nat, idx: seq<nat>, targets: set<int>,
                           x: Instr, next: nat, drawn: seq<nat>, after: set<int>)
    requires cnt < |idx|
  {
    if Assignable(now) then
      var t := CappedLabel(now.idx + idx[cnt], labels);
      x == now.(target := Forward(t), branchAssigned := true) && after == targets + {t} && NextOf(idx, cnt, drawn, next)
    else x == now && next == cnt && drawn == idx && after == targets
  }

  lemma AssigningStep(list: seq<Instr>, steps: seq<nat>, draws: seq<seq<nat>>, idx: seq<nat>, cnt: nat, maxStep: nat,
                      now: seq<Instr>, targets: set<int>, x: Instr, drawn: seq<nat>, next: nat, after: set<int>)
    returns (more: seq<nat>, all: seq<seq<nat>>)
    requires Assigning(list, steps, draws, idx, cnt, maxStep, now, targets)
    requires |steps| < |list| && Unnumbered(list) && maxStep >= 1 && StepsWithin(drawn, maxStep)
    requires Assigned(Numbered(list, |steps|), Count(list, |list|), cnt, idx, targets, x, next, drawn, after)
    ensures |more| == |steps| + 1 && (x.isLocalNumeric ==> x.tag.Numeric?)
    ensures Assigning(list, more, all, drawn, next, maxStep, now[|steps| := Settled(x, after)], after)
  {
    var step := if Assignable(list[|steps|]) then idx[cnt] else 1;
    more := steps + [step];
    assert StepsWithin(more, maxStep);
    all := DrawStep(list, steps, draws, idx, cnt, drawn, next);
    AssignedProgress(list, steps, idx, cnt, now, targets, x, drawn, next, after);
  }

  lemma AssignedProgress(list: seq<Instr>, steps: seq<nat>, idx: seq<nat>, cnt: nat, now: seq<Instr>,
                         targets: set<int>, x: Instr, drawn: seq<nat>, next: nat, after: set<int>)
    requires |steps| < |list| && Unnumbered(list) && cnt < |idx| && Progress(list, steps, now, targets)
    requires Assigned(Numbered(list, |steps|), Count(list, |list|), cnt, idx, targets, x, next, drawn, after)
    ensures x.isLocalNumeric ==> x.tag.Numeric?
    ensures var step := if Assignable(list[|steps|]) then idx[cnt] else 1;
            Progress(list, steps + [step], now[|steps| := Settled(x, after)], after)
  {
    ProgressStep(list, steps, if Assignable(list[|steps|]) then idx[cnt] else 1, now, targets, x, after);
  }

  // ---------------------------------------------------------------- the sequence

  class Sequence {
    const stream: Stream
    var directedInstr: seq<seq<Instr>>

    constructor (stream: Stream, directedInstr: seq<seq<Instr>>)
      ensures this.stream == stream && this.directedInstr == directedInstr
    {
      this.stream := stream;
      this.directedInstr := directedInstr;
    }

    /** Mixes the directed streams in at random places; `ok` is false where no place is left. */
    method InsertDirected() returns (ok: bool, ghost ks: seq<nat>)
      modifies stream
      ensures ok ==> |ks| == |directedInstr| && Legal(old(stream.instrList), directedInstr, ks, |ks|)
      ensures ok ==> stream.instrList == Assembled(old(stream.instrList), directedInstr, ks, |ks|)
      ensures ok <==> forall n :: 0 <= n < |directedInstr| ==> Room(old(stream.instrList), directedInstr, n)
    {
      ghost var base := stream.instrList;
      ks := [];
      ok := true;
      for n := 0 to |directedInstr|
        invariant |ks| == n && Legal(base, directedInstr, ks, n)
        invariant stream.instrList == Assembled(base, directedInstr, ks, n)
        invariant forall m :: 0 <= m < n ==> Room(base, directedInstr, m)
      {
        ghost var before := stream.instrList;
        var s := directedInstr[n];
        ghost var k;
        AssembledRoom(base, directedInstr, ks, n);
        ok, k := stream.InsertInstrStream(s, -1, false);
        if !ok {
          assert !Room(base, directedInstr, n);
          return;
        }
        PlacedNext(base, directedInstr, ks, n, k, stream.instrList);
        ks := ks + [k];
      }
    }

    /** Gives every labelled non-atomic instruction the next number, and every instruction the number due at it. */
    method NumberLabels() returns (labels: nat)
      modifies stream
      ensures labels == Count(old(stream.instrList), |old(stream.instrList)|)
      ensures |stream.instrList| == |old(stream.instrList)|
      ensures forall i :: 0 <= i < |stream.instrList| ==> stream.instrList[i] == Numbered(old(stream.instrList), i)
    {
      labels := 0;
      ghost var list := stream.instrList;
      for i := 0 to |stream.instrList|
        invariant |stream.instrList| == |list| && labels == Count(list, i)
        invariant forall j :: 0 <= j < i ==> stream.instrList[j] == Numbered(list, j)
        invariant forall j :: i <= j < |list| ==> stream.instrList[j] == list[j]
      {
        var x := stream.instrList[i].(idx := labels);
        if x.hasLabel && !x.atomic {
          x := x.(tag := Numeric(labels), isLocalNumeric := true);
          labels := labels + 1;
        }
        stream.instrList := stream.instrList[i := x];
      }
    }

    /** Sends every unassigned branch to a label, and drops the numeric labels no branch so far uses. */
    method AssignBranches(labels: nat, maxStep: nat, ghost list: seq<Instr>)
      returns (ghost steps: seq<nat>, ghost draws: seq<seq<nat>>)
      requires maxStep >= 1 && Unnumbered(list)
      requires |stream.instrList| == |list| && labels == Count(list, |list|)
      requires forall i :: 0 <= i < |list| ==> stream.instrList[i] == Numbered(list, i)
      modifies stream
      ensures |steps| == |list| && StepsWithin(steps, maxStep)
      ensures Shuffles(draws) && StepsDrawn(list, steps, draws)
      ensures IsPostProcessed(list, steps, stream.instrList)
    {
      var branchIdx: seq<nat> := DrawSteps(maxStep);
      var branchCnt: nat := 0;
      var branchTarget: set<int> := {};
      steps, draws := [], [branchIdx];
      AssigningStarts(list, branchIdx, maxStep, stream.instrList);
      var j := 0;
      while j < |stream.instrList|
        invariant |steps| == j && |stream.instrList| == |list|
        invariant Assigning(list, steps, draws, branchIdx, branchCnt, maxStep, stream.instrList, branchTarget)
        decreases |list| - j
      {
        ghost var now, idx, cnt, targets := stream.instrList, branchIdx, branchCnt, branchTarget;
        AtNext(list, steps, now, targets);
        var x;
        x, branchCnt, branchIdx, branchTarget :=
          AssignOne(stream.instrList[j], labels, branchCnt, branchIdx, branchTarget, maxStep);
        steps, draws := AssigningStep(list, steps, draws, idx, cnt, maxStep, now, targets,
                                      x, branchIdx, branchCnt, branchTarget);
        stream.instrList := stream.instrList[j := Settled(x, branchTarget)];
        j := j + 1;
      }
    }

    method PostProcessInstr(maxStep: nat)
      returns (ok: bool, ghost ks: seq<nat>, ghost steps: seq<nat>, ghost draws: seq<seq<nat>>)
      requires maxStep >= 1 && Unnumbered(stream.instrList)
      requires forall s :: s in directedInstr ==> Unnumbered(s)
      modifies stream
      ensures ok <==> forall n :: 0 <= n < |directedInstr| ==> Room(old(stream.instrList), directedInstr, n)
      ensures ok ==> |ks| == |directedInstr| && Legal(old(stream.instrList), directedInstr, ks, |ks|)
      ensures ok ==> StepsWithin(steps, maxStep) && Shuffles(draws)
      ensures ok ==> var list := Assembled(old(stream.instrList), directedInstr, ks, |ks|);
                |steps| == |list| && StepsDrawn(list, steps, draws)
      ensures ok ==> IsPostProcessed(Assembled(old(stream.instrList), directedInstr, ks, |ks|), steps, stream.instrList)
    {
      ok, ks := InsertDirected();
      steps, draws := [], [];
      if ok {
        AssembledUnnumbered(old(stream.instrList), directedInstr, ks, |ks|);
        ghost var list := stream.instrList;
        var labels := NumberLabels();
        steps, draws := AssignBranches(labels, maxStep, list);
      }
    }
  }

  /** No label beyond the last. */
  function CappedLabel(t: int, labels: nat): int {
    if t >= labels then labels - 1 else t
  }

  /** An instruction, given its target if it is a branch that has none; the label is noted. */
  method AssignOne(now: Instr, labels: nat, cnt: nat, idx: seq<nat>, targets: set<int>, maxStep: nat)
    returns (x: Instr, next: nat, drawn: seq<nat>, after: set<int>)
    requires cnt < |idx| && StepsWithin(idx, maxStep)
    ensures Assigned(now, labels, cnt, idx, targets, x, next, drawn, after) && StepsWithin(drawn, maxStep)
  {
    x, next, drawn, after := now, cnt, idx, targets;
    if x.category == BRANCH && !x.branchAssigned && !x.isIllegal {
      var t := CappedLabel(x.idx + idx[cnt], labels);
      next := next + 1;
      if next == |idx| {
        next := 0;
        drawn := Reshuffle(idx, maxStep);
      }
      x := x.(target := Forward(t), branchAssigned := true);
      after := after + {t};
    }
  }

  method DrawSteps(maxStep: nat) returns (steps: seq<nat>)
    requires maxStep >= 1
    ensures |steps| == 30 && StepsWithin(steps, maxStep)
  {
    steps := [];
    for i := 0 to 30
      invariant |steps| == i && StepsWithin(steps, maxStep)
    {
      var step: nat :| 1 <= step <= maxStep;
      steps := steps + [step];
    }
  }

  /** `random.shuffle`: some list of the same elements. */
  method Reshuffle(steps: seq<nat>, ghost maxStep: nat) returns (r: seq<nat>)
    requires StepsWithin(steps, maxStep)
    ensures multiset(r) == multiset(steps) && |r| == |steps| && StepsWithin(r, maxStep)
  {
    r :| multiset(r) == multiset(steps);
    assert |multiset(r)| == |r| && |multiset(steps)| == |steps|;
    forall i | 0 <= i < |r|
      ensures 1 <= r[i] <= maxStep
    {
      assert r[i] in multiset(steps);
    }
  }
}
