/** Post-processed programs: branches only go forward, and labels stay exactly where needed. */
module ForwardBranches {
  import opened InstrStream
  import opened BranchTargets
  import opened ProgramFlow
  import opened JumpChain
  import opened StreamAssembly

  // ---------------------------------------------------------------- label numbers

  lemma {:induction false} CountMonotone(list: seq<Instr>, m: nat, n: nat)
    requires m <= n <= |list|
    ensures Count(list, m) <= Count(list, n)
  {
    if m == n {
    } else {
      CountMonotone(list, m, n - 1);
    }
  }

  /** Labels are numbered from zero in the order they stand in: the count is of the labelled instructions before. */
  lemma {:induction false} CountIsNumber(list: seq<Instr>, n: nat)
    requires n <= |list|
    ensures Count(list, n) == |set i: nat | i < n && list[i].hasLabel && !list[i].atomic|
  {
    var labelled := set i: nat | i < n && list[i].hasLabel && !list[i].atomic;
    if n == 0 {
      assert labelled == {};
    } else {
      CountIsNumber(list, n - 1);
      var front := set i: nat | i < n - 1 && list[i].hasLabel && !list[i].atomic;
      assert labelled == if list[n - 1].hasLabel && !list[n - 1].atomic then front + {n - 1} else front;
    }
  }

  /**
   * What post-processing leaves alone. Only an unassigned branch that is not an illegal instruction gets a target,
   * only labelled instructions outside atomic streams are renamed, no instruction gains a label, and nothing else
   * changes but the index.
   */
  lemma OnlyBranchesAssigned(list: seq<Instr>, steps: seq<nat>, r: seq<Instr>, i: nat)
    requires IsPostProcessed(list, steps, r) && Unnumbered(list) && i < |list|
    ensures var x, y := list[i], r[i];
            && y.category == x.category && y.atomic == x.atomic && y.isIllegal == x.isIllegal && y.text == x.text
            && y.idx == Count(list, i)
            && (if x.category == BRANCH && !x.branchAssigned && !x.isIllegal then y.branchAssigned && y.target.Forward?
                else y.branchAssigned == x.branchAssigned && y.target == x.target)
            && (if x.hasLabel && !x.atomic then y.isLocalNumeric && y.tag == Numeric(y.idx)
                else y.hasLabel == x.hasLabel && y.tag == x.tag)
            && (y.hasLabel ==> x.hasLabel)
  {
  }

  /** Position `p` is the one labelled `t`. */
  ghost predicate IsLabel(list: seq<Instr>, p: nat, t: int) {
    p < |list| && Numberable(list[p]) && Count(list, p) == t
  }

  lemma {:induction false} LabelExists(list: seq<Instr>, n: nat, t: nat)
    requires n <= |list| && t < Count(list, n)
    ensures exists p: nat :: p < n && IsLabel(list, p, t)
  {
    if Numberable(list[n - 1]) && Count(list, n - 1) == t {
      assert IsLabel(list, n - 1, t);
    } else {
      LabelExists(list, n - 1, t);
    }
  }

  lemma LabelUnique(list: seq<Instr>, p: nat, q: nat, t: int)
    requires IsLabel(list, p, t) && IsLabel(list, q, t)
    ensures p == q
  {
    if p < q {
      CountMonotone(list, p + 1, q);
    } else if q < p {
      CountMonotone(list, q + 1, p);
    }
  }

  ghost predicate LaterLabel(list: seq<Instr>, i: nat)
    requires i < |list|
  {
    exists p :: i < p < |list| && Numberable(list[p])
  }

  /** The label a branch is sent to is further on exactly when there is any labelled instruction further on. */
  lemma TargetIsForward(list: seq<Instr>, steps: seq<nat>, i: nat)
    requires i < |list| == |steps| && steps[i] >= 1
    ensures LaterLabel(list, i) <==> exists p: nat :: i < p && IsLabel(list, p, TargetOf(list, steps, i))
  {
    var t, total := TargetOf(list, steps, i), Count(list, |list|);
    if LaterLabel(list, i) {
      var p :| i < p < |list| && Numberable(list[p]);
      CountMonotone(list, i + 1, p);
      CountMonotone(list, p + 1, |list|);
      assert Count(list, i + 1) <= t < total;
      LabelExists(list, |list|, t);
      var q: nat :| q < |list| && IsLabel(list, q, t);
      if q <= i {
        CountMonotone(list, q + 1, i + 1);
      }
    }
  }

  ghost predicate Later(list: seq<Instr>, i: nat, p: nat, t: int) {
    i < p && IsLabel(list, p, t)
  }

  /** How the program must end for every branch to have somewhere to go. */
  ghost predicate EndsWithLabel(list: seq<Instr>) {
    list != [] && Numberable(list[|list| - 1]) && list[|list| - 1].category != BRANCH
  }

  lemma AssignedTarget(list: seq<Instr>, steps: seq<nat>, i: nat) returns (p: nat)
    requires i < |list| == |steps| && steps[i] >= 1 && Assignable(list[i]) && EndsWithLabel(list)
    ensures Later(list, i, p, TargetOf(list, steps, i))
  {
    assert LaterLabel(list, i);
    TargetIsForward(list, steps, i);
    p :| i < p && IsLabel(list, p, TargetOf(list, steps, i));
  }

  /** How many labelled instructions there are from `i` up to `p`. */
  function LabelsBetween(list: seq<Instr>, i: nat, p: nat): nat
    requires i <= p <= |list|
  {
    if i == p then 0 else LabelsBetween(list, i, p - 1) + (if Numberable(list[p - 1]) then 1 else 0)
  }

  lemma {:induction false} CountBetween(list: seq<Instr>, i: nat, p: nat)
    requires i <= p <= |list|
    ensures Count(list, p) == Count(list, i) + LabelsBetween(list, i, p)
  {
    if i == p {
    } else {
      CountBetween(list, i, p - 1);
    }
  }

  /**
   * From `i`, `p` is the labelled instruction that a distance of `step` labels leads to, or the last where there
   * are fewer.
   */
  ghost predicate AtDistance(list: seq<Instr>, i: nat, p: nat, step: nat) {
    && i < p < |list| && Numberable(list[p])
    && (|| LabelsBetween(list, i, p) == step
        || (LabelsBetween(list, i, p) < step && !LaterLabel(list, p)))
  }

  /** The label assigned stands where the drawn distance says. */
  lemma DrawnLabel(list: seq<Instr>, steps: seq<nat>, i: nat, p: nat)
    requires i < |list| == |steps| && steps[i] >= 1 && i < p && IsLabel(list, p, TargetOf(list, steps, i))
    ensures AtDistance(list, i, p, steps[i])
  {
    CountBetween(list, i, p);
    CountMonotone(list, p + 1, |list|);
    if LabelsBetween(list, i, p) != steps[i] && LaterLabel(list, p) {
      var q :| p < q < |list| && Numberable(list[q]);
      CountMonotone(list, p + 1, q);
      CountMonotone(list, q + 1, |list|);
    }
  }

  /** So does the label the branch resolves to at the end, when no other label of the program is a bare number. */
  lemma BranchAtDrawnDistance(list: seq<Instr>, steps: seq<nat>, r: seq<Instr>, i: nat)
    requires IsPostProcessed(list, steps, r) && Unnumbered(list) && EndsWithLabel(list) && NoBareNumbers(list)
    requires (forall j :: 0 <= j < |steps| ==> steps[j] >= 1) && i < |list| && Assignable(list[i])
    ensures Resolve(r, i).At? && AtDistance(list, i, Resolve(r, i).pos, steps[i])
  {
    BranchResolves(list, steps, r, i);
    DrawnLabel(list, steps, i, Resolve(r, i).pos);
  }

  /** A label survives exactly when some branch of the whole program is sent to it. */
  lemma LabelsKeptIffUsed(list: seq<Instr>, steps: seq<nat>, r: seq<Instr>, p: nat)
    requires IsPostProcessed(list, steps, r) && Unnumbered(list) && EndsWithLabel(list)
    requires (forall i :: 0 <= i < |steps| ==> steps[i] >= 1) && p < |list| && Numberable(list[p])
    ensures r[p].tag == Numeric(Count(list, p))
    ensures r[p].hasLabel <==> Targeted(list, steps, Count(list, p), |list|)
  {
    var t := Count(list, p);
    if i :| 0 <= i < |list| && Assignable(list[i]) && TargetOf(list, steps, i) == t {
      var q := AssignedTarget(list, steps, i);
      LabelUnique(list, p, q, t);
      assert Targeted(list, steps, t, p + 1);
    }
  }

  /** No label outside the numbered ones is a bare number. */
  ghost predicate NoBareNumbers(list: seq<Instr>) {
    forall j :: 0 <= j < |list| && list[j].hasLabel && !Numberable(list[j]) ==> !list[j].tag.Numeric?
  }

  /**
   * Every assigned branch resolves, strictly forward; to the label it was sent to when no other
   * label of the program is a bare number.
   */
  lemma BranchResolves(list: seq<Instr>, steps: seq<nat>, r: seq<Instr>, i: nat)
    requires IsPostProcessed(list, steps, r) && Unnumbered(list) && EndsWithLabel(list)
    requires (forall j :: 0 <= j < |steps| ==> steps[j] >= 1) && i < |list| && Assignable(list[i])
    ensures r[i].target == Forward(TargetOf(list, steps, i))
    ensures Resolve(r, i).At? && i < Resolve(r, i).pos < |r|
    ensures NoBareNumbers(list) ==> IsLabel(list, Resolve(r, i).pos, TargetOf(list, steps, i))
  {
    var t := TargetOf(list, steps, i);
    var p := AssignedTarget(list, steps, i);
    assert Targeted(list, steps, t, p + 1);
    assert HasNumber(r[p], t);
    var q := Resolve(r, i).pos;
    if NoBareNumbers(list) {
      assert r[q].hasLabel && r[q].tag == Numeric(t);
      assert IsLabel(list, q, t);
    }
  }

  // ---------------------------------------------------------------- what the generator puts together

  /**
   * A base program, the directed streams, where they went in, and for each stream its jump order (none if it
   * has no jumps).
   */
  ghost predicate Planned(base: seq<Instr>, streams: seq<seq<Instr>>, ks: seq<nat>, orders: seq<seq<nat>>) {
    && |ks| == |streams| == |orders|
    && LegalRun(base, streams, ks, |streams|)
    && Unnumbered(base) && EndsWithLabel(base)
    && (forall i :: 0 <= i < |base| ==> BaseInstr(base[i]))
    && (forall q :: 0 <= q < |streams| ==> DirectedStream(streams[q], orders[q]))
  }

  /** What random generation makes: no jumps, and no branch has a target yet. */
  ghost predicate BaseInstr(x: Instr) {
    x.category != JUMP && (x.category == BRANCH ==> !x.branchAssigned)
  }

  /** The branch of a loop whose label is in its own stream. */
  ghost predicate LoopBranchIn(s: seq<Instr>, x: Instr) {
    LoopBranch(x) && exists i :: 0 <= i < |s| && s[i].hasLabel && s[i].tag == Named(x.target.s)
  }

  /**
   * An atomic stream, either of instructions like those and branches of counter loops, or a jump chain that
   * ends in one.
   */
  ghost predicate DirectedStream(s: seq<Instr>, order: seq<nat>) {
    && AllAtomic(s) && Unnumbered(s)
    && if order == [] then forall j :: 0 <= j < |s| ==> BaseInstr(s[j]) || LoopBranchIn(s, s[j])
       else |s| == |order| + 2 && ChainAt(s, 0, order) && BaseInstr(s[|s| - 1])
  }

  lemma AtomicKept(list: seq<Instr>, steps: seq<nat>, r: seq<Instr>, j: nat)
    requires IsPostProcessed(list, steps, r) && j < |list|
    requires list[j].atomic && !list[j].isLocalNumeric
    ensures SameLabel(list[j], r[j])
    ensures !Assignable(list[j]) ==> r[j] == list[j].(idx := Count(list, j))
  {
  }

  /** A jump chain comes through insertion and post-processing whole. */
  lemma ChainKept(base: seq<Instr>, streams: seq<seq<Instr>>, ks: seq<nat>, orders: seq<seq<nat>>,
                  steps: seq<nat>, r: seq<Instr>, q: nat)
    requires Planned(base, streams, ks, orders) && q < |streams| && orders[q] != []
    requires IsPostProcessed(Assembled(base, streams, ks, |ks|), steps, r)
    ensures ChainAt(r, StreamStart(streams, ks, |ks|, q), orders[q])
  {
    var n, a, s, order := |ks|, StreamStart(streams, ks, |ks|, q), streams[q], orders[q];
    var list := Assembled(base, streams, ks, n);
    assert DirectedStream(s, order);
    StreamContiguous(base, streams, ks, n, q);
    forall j: nat | j < |s|
      ensures SameLabel(s[j], r[a + j]) && (j < |s| - 1 ==> r[a + j].target == s[j].target)
    {
      StreamElement(base, streams, ks, n, q, j);
      AtomicKept(list, steps, r, a + j);
      if j < |s| - 1 {
        CategoryInChain(s, order, j);
      }
    }
    MovedChain(s, r, a, order);
  }

  lemma CategoryInChain(s: seq<Instr>, order: seq<nat>, j: nat)
    requires ChainAt(s, 0, order) && |s| == |order| + 2 && j < |s| - 1
    ensures s[j].category == JUMP
  {
    if 0 < j {
      assert j == Slot(0, j - 1);
    }
  }

  /** The two instructions differ in their index and target at most. */
  predicate SameLabel(x: Instr, y: Instr) {
    y.category == x.category && y.tag == x.tag && y.isIllegal == x.isIllegal && y.hasLabel == x.hasLabel
  }

  /** A copy of `s` stands at `a`; the target of its last instruction may have changed. */
  ghost predicate Moved(s: seq<Instr>, r: seq<Instr>, a: nat) {
    && a + |s| <= |r|
    && forall j: nat :: j < |s| ==> SameLabel(s[j], r[a + j]) && (j < |s| - 1 ==> r[a + j].target == s[j].target)
  }

  lemma MovedChain(s: seq<Instr>, r: seq<Instr>, a: nat, order: seq<nat>)
    requires ChainAt(s, 0, order) && |s| == |order| + 2 && Moved(s, r, a)
    ensures ChainAt(r, a, order)
  {
    var n := |order|;
    forall j | a <= j < a + n + 2
      ensures !r[j].isIllegal && r[j].hasLabel
    {
      assert SameLabel(s[j - a], r[a + (j - a)]);
    }
    assert SameLabel(s[0], r[a + 0]);
    forall i | 0 <= i < n
      ensures r[Slot(a, i)].category == JUMP && r[Slot(a, i)].tag == Numeric(i)
    {
      MovedSlot(s, r, a, i);
    }
    forall k | 0 <= k < n
      ensures r[Slot(a, order[k])].target == JumpTarget(order, k)
    {
      MovedSlot(s, r, a, order[k]);
    }
    MovedSlot(s, r, a, n);
  }

  lemma MovedSlot(s: seq<Instr>, r: seq<Instr>, a: nat, i: nat)
    requires Moved(s, r, a) && i + 1 < |s|
    ensures SameLabel(s[Slot(0, i)], r[Slot(a, i)])
    ensures i + 2 < |s| ==> r[Slot(a, i)].target == s[Slot(0, i)].target
  {
    assert SameLabel(s[1 + i], r[a + (1 + i)]);
  }
}
