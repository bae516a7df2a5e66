/** Building the call tree (pygen/experimental/riscv_callstack_gen.py and pygen/pygen_src/riscv_callstack_gen.py). */
module CallStack {
  datatype Program = Program(programId: nat, callStackLevel: nat, subProgramId: seq<nat>)

  /** `program_stack_level_c`: levels start at 0, later ones at 1, and never fall or skip. */
  ghost predicate LegalLevels(lv: seq<nat>, maxLevel: nat) {
    && |lv| >= 1 && lv[0] == 0
    && forall i :: 1 <= i < |lv| ==>
         1 <= lv[i] < |lv| && lv[i - 1] <= lv[i] <= lv[i - 1] + 1 && lv[i] <= maxLevel
  }

  function LastLevel(lv: seq<nat>): nat
    requires |lv| >= 1
  {
    lv[|lv| - 1]
  }

  lemma {:induction false} LevelsAscend(lv: seq<nat>, maxLevel: nat, i: nat, j: nat)
    requires LegalLevels(lv, maxLevel) && i <= j < |lv|
    ensures lv[i] <= lv[j]
  {
    if i == j {
    } else {
      LevelsAscend(lv, maxLevel, i, j - 1);
    }
  }

  /** No level is skipped. */
  lemma {:induction false} LevelInhabited(lv: seq<nat>, maxLevel: nat, n: nat, k: nat)
    requires LegalLevels(lv, maxLevel) && n < |lv| && k <= lv[n]
    ensures exists j :: 0 <= j <= n && lv[j] == k
  {
    if lv[n] == k {
    } else {
      LevelInhabited(lv, maxLevel, n - 1, k);
    }
  }

  function Sum(s: seq<nat>, n: nat): nat
    requires n <= |s|
  {
    if n == 0 then 0 else Sum(s, n - 1) + s[n - 1]
  }

  lemma {:induction false} SumConstant(s: seq<nat>, n: nat)
    requires n <= |s| && forall i :: 1 <= i < |s| ==> s[i] == 0
    ensures Sum(s, n) == if n == 0 then 0 else s[0]
  {
    if n == 0 {
    } else {
      SumConstant(s, n - 1);
    }
  }

  lemma {:induction false} SumMonotone(s: seq<nat>, m: nat, n: nat)
    requires m <= n <= |s|
    ensures Sum(s, m) <= Sum(s, n)
  {
    if m == n {
    } else {
      SumMonotone(s, m, n - 1);
    }
  }

  // ---------------------------------------------------------------- what a level's calls must be

  /** Programs of level `k` call only programs of the next level. */
  ghost predicate CallsNextLevel(lv: seq<nat>, ps: seq<Program>, k: nat)
    requires |lv| == |ps|
  {
    forall p: nat, c: nat {:trigger c in ps[p].subProgramId} :: p < |ps| && lv[p] == k && c in ps[p].subProgramId ==>
      c < |lv| && lv[c] == k + 1
  }

  ghost predicate HasCaller(lv: seq<nat>, ps: seq<Program>, k: nat, c: nat)
    requires |lv| == |ps|
  {
    exists p :: 0 <= p < |ps| && lv[p] == k && c in ps[p].subProgramId
  }

  /** Every program of level `k + 1` is called from level `k`. */
  ghost predicate NextLevelCalled(lv: seq<nat>, ps: seq<Program>, k: nat)
    requires |lv| == |ps|
  {
    forall c: nat :: c < |lv| && lv[c] == k + 1 ==> HasCaller(lv, ps, k, c)
  }

  /** Only programs of level `k` differ, and they only in what they call. */
  ghost predicate OnlyLevelChanged(lv: seq<nat>, before: seq<Program>, after: seq<Program>, k: nat)
    requires |lv| == |before|
  {
    && |after| == |before|
    && forall p :: 0 <= p < |before| ==>
         after[p].programId == before[p].programId && after[p].callStackLevel == before[p].callStackLevel &&
         (lv[p] != k ==> after[p] == before[p])
  }

  /** What the `j`-th caller gets: the next `counts[j]` of the pool. */
  function Share(pool: seq<nat>, counts: seq<nat>, j: nat): seq<nat>
    requires j < |counts|
  {
    var from := Sum(counts, j);
    if from + counts[j] <= |pool| then pool[from..from + counts[j]] else []
  }

  /** The shares of the first `n` callers cover the pool as far as their counts add up to. */
  lemma {:induction false} InSomeShare(pool: seq<nat>, counts: seq<nat>, n: nat, m: nat) returns (j: nat)
    requires n <= |counts| && Sum(counts, n) <= |pool| && m < Sum(counts, n)
    ensures j < n && pool[m] in Share(pool, counts, j)
  {
    if m < Sum(counts, n - 1) {
      j := InSomeShare(pool, counts, n - 1, m);
    } else {
      j := n - 1;
      assert Share(pool, counts, j)[m - Sum(counts, j)] == pool[m];
    }
  }

  lemma SharesReach(lv: seq<nat>, ps: seq<Program>, callers: seq<nat>, pool: seq<nat>, counts: seq<nat>, k: nat)
    requires |ps| == |lv| && |counts| == |callers| && Sum(counts, |counts|) == |pool|
    requires forall i :: 0 <= i < |callers| ==>
      callers[i] < |lv| && lv[callers[i]] == k && ps[callers[i]].subProgramId == Share(pool, counts, i)
    requires forall id: nat :: id < |lv| && lv[id] == k ==> id in callers
    ensures forall p: nat, c: nat {:trigger c in ps[p].subProgramId} ::
              p < |ps| && lv[p] == k && c in ps[p].subProgramId ==> c in pool
    ensures forall c :: c in pool ==> HasCaller(lv, ps, k, c)
  {
    forall p: nat, c: nat | p < |ps| && lv[p] == k && c in ps[p].subProgramId
      ensures c in pool
    {
      assert p in callers;
    }
    forall c | c in pool
      ensures HasCaller(lv, ps, k, c)
    {
      var m :| 0 <= m < |pool| && pool[m] == c;
      var j := InSomeShare(pool, counts, |counts|, m);
      assert lv[callers[j]] == k;
    }
  }

  lemma ShareSizes(pool: seq<nat>, counts: seq<nat>)
    requires Sum(counts, |counts|) == |pool|
    ensures forall j :: 0 <= j < |counts| ==> |Share(pool, counts, j)| == counts[j]
  {
    forall j | 0 <= j < |counts|
      ensures |Share(pool, counts, j)| == counts[j]
    {
      SumMonotone(counts, j + 1, |counts|);
    }
  }

  /** How many calls the programs of level `k` among the first `n` make. */
  ghost function Calls(lv: seq<nat>, ps: seq<Program>, k: nat, n: nat): nat
    requires |lv| == |ps| && n <= |lv|
  {
    if n == 0 then 0 else Calls(lv, ps, k, n - 1) + (if lv[n - 1] == k then |ps[n - 1].subProgramId| else 0)
  }

  /** How many of the first `n` programs are of level `k`. */
  function LevelSize(lv: seq<nat>, k: nat, n: nat): nat
    requires n <= |lv|
  {
    if n == 0 then 0 else LevelSize(lv, k, n - 1) + (if lv[n - 1] == k then 1 else 0)
  }

  /** Each call list is one caller's share, so together they are as long as the pool. */
  lemma {:induction false} CallsAreShares(lv: seq<nat>, ps: seq<Program>, k: nat, ids: seq<nat>, counts: seq<nat>,
                                          n: nat, j: nat)
    requires |lv| == |ps| && n <= |lv| && j <= |ids| == |counts|
    requires forall i :: 0 <= i < |ids| ==> ids[i] < |lv| && lv[ids[i]] == k && |ps[ids[i]].subProgramId| == counts[i]
    requires forall i, m :: 0 <= i < m < |ids| ==> ids[i] < ids[m]
    requires forall id: nat :: id < |lv| && lv[id] == k ==> id in ids
    requires (j > 0 ==> ids[j - 1] < n) && (j < |ids| ==> n <= ids[j])
    ensures Calls(lv, ps, k, n) == Sum(counts, j)
  {
    if n == 0 {
    } else if lv[n - 1] == k {
      assert n - 1 in ids;
      var i :| 0 <= i < |ids| && ids[i] == n - 1;
      assert i == j - 1;
      CallsAreShares(lv, ps, k, ids, counts, n - 1, j - 1);
    } else {
      CallsAreShares(lv, ps, k, ids, counts, n - 1, j);
    }
  }

  lemma {:induction false} CallsKept(lv: seq<nat>, before: seq<Program>, after: seq<Program>, k: nat, m: nat, n: nat)
    requires |lv| == |before| && OnlyLevelChanged(lv, before, after, k) && m != k && n <= |lv|
    ensures Calls(lv, after, m, n) == Calls(lv, before, m, n)
  {
    if n == 0 {
    } else {
      CallsKept(lv, before, after, k, m, n - 1);
    }
  }

  /** Level `k` makes a call for each program of the next level, or one call more. */
  ghost predicate CallsCounted(lv: seq<nat>, ps: seq<Program>, k: nat)
    requires |lv| == |ps|
  {
    LevelSize(lv, k + 1, |lv|) <= Calls(lv, ps, k, |lv|) <= LevelSize(lv, k + 1, |lv|) + 1
  }

  /** The programs of one level, in order. */
  method ProgramsAt(lv: seq<nat>, k: nat) returns (ids: seq<nat>)
    ensures AreLevel(lv, k, ids)
  {
    ids := [];
    for j := 0 to |lv|
      invariant forall i :: 0 <= i < |ids| ==> ids[i] < j && lv[ids[i]] == k
      invariant forall id: nat :: id < j && lv[id] == k ==> id in ids
      invariant forall i, m :: 0 <= i < m < |ids| ==> ids[i] < ids[m]
      invariant |ids| == LevelSize(lv, k, j)
    {
      if lv[j] == k {
        ids := ids + [j];
      }
    }
  }

  class CallstackGen {
    var programH: seq<Program>
    var stackLevel: seq<nat>

    constructor (stackLevel: seq<nat>)
      ensures this.stackLevel == stackLevel && |programH| == |stackLevel|
      ensures forall p :: 0 <= p < |programH| ==> programH[p].subProgramId == []
    {
      this.stackLevel := stackLevel;
      this.programH := seq(|stackLevel|, i requires 0 <= i < |stackLevel| => Program(0, 0, []));
    }

    /** Hands the pool out to the callers of one level. */
    method Distribute(callers: seq<nat>, pool: seq<nat>, counts: seq<nat>, k: nat)
      requires |programH| == |stackLevel| && AreLevel(stackLevel, k, callers)
      requires |counts| == |callers| && Sum(counts, |counts|) == |pool|
      modifies `programH
      ensures OnlyLevelChanged(stackLevel, old(programH), programH, k)
      ensures forall j :: 0 <= j < |callers| ==>
                programH[callers[j]].subProgramId == Share(pool, counts, j) &&
                |programH[callers[j]].subProgramId| == counts[j]
    {
      var idx := 0;
      for j := 0 to |callers|
        invariant idx == Sum(counts, j)
        invariant OnlyLevelChanged(stackLevel, old(programH), programH, k)
        invariant forall i :: 0 <= i < j ==> programH[callers[i]].subProgramId == Share(pool, counts, i)
      {
        SumMonotone(counts, j + 1, |counts|);
        var id := callers[j];
        programH := programH[id := programH[id].(subProgramId := pool[idx..idx + counts[j]])];
        idx := idx + counts[j];
      }
      ShareSizes(pool, counts);
    }

    method BuildLevel(k: nat, ghost maxLevel: nat)
      requires LegalLevels(stackLevel, maxLevel) && |programH| == |stackLevel| && k < LastLevel(stackLevel)
      modifies `programH
      ensures OnlyLevelChanged(stackLevel, old(programH), programH, k)
      ensures CallsNextLevel(stackLevel, programH, k) && NextLevelCalled(stackLevel, programH, k)
      ensures CallsCounted(stackLevel, programH, k)
    {
      var callers := ProgramsAt(stackLevel, k);
      var next := ProgramsAt(stackLevel, k + 1);
      LevelInhabited(stackLevel, maxLevel, |stackLevel| - 1, k);
      LevelInhabited(stackLevel, maxLevel, |stackLevel| - 1, k + 1);
      assert callers != [] && next != [];
      var pool := DrawPool(next);
      var counts := DrawCounts(|callers|, |pool|);
      Distribute(callers, pool, counts, k);
      LevelBuilt(stackLevel, programH, k, callers, next, pool, counts);
    }

    /** Levels top down; programs of the last level keep the list they had. */
    method PostRandomize(ghost maxLevel: nat)
      requires LegalLevels(stackLevel, maxLevel) && |programH| == |stackLevel|
      modifies `programH
      ensures |programH| == |stackLevel|
      ensures forall k :: 0 <= k < LastLevel(stackLevel) ==>
                CallsNextLevel(stackLevel, programH, k) && NextLevelCalled(stackLevel, programH, k)
      ensures forall k :: 0 <= k < LastLevel(stackLevel) ==> CallsCounted(stackLevel, programH, k)
      ensures forall p :: 0 <= p < |programH| ==>
                programH[p].programId == p && programH[p].callStackLevel == stackLevel[p]
      ensures forall p :: 0 <= p < |programH| && stackLevel[p] == LastLevel(stackLevel) ==>
                programH[p].subProgramId == old(programH[p].subProgramId)
    {
      for i := 0 to |programH|
        invariant |programH| == |stackLevel|
        invariant forall p :: 0 <= p < |programH| ==> programH[p].subProgramId == old(programH[p].subProgramId)
        invariant forall p :: 0 <= p < i ==>
          programH[p].programId == p && programH[p].callStackLevel == stackLevel[p]
      {
        programH := programH[i := programH[i].(programId := i, callStackLevel := stackLevel[i])];
      }
      for k := 0 to LastLevel(stackLevel)
        invariant |programH| == |stackLevel|
        invariant forall m :: 0 <= m < k ==>
          CallsNextLevel(stackLevel, programH, m) && NextLevelCalled(stackLevel, programH, m)
        invariant forall m :: 0 <= m < k ==> CallsCounted(stackLevel, programH, m)
        invariant forall p :: 0 <= p < |programH| ==>
          programH[p].programId == p && programH[p].callStackLevel == stackLevel[p]
        invariant forall p :: 0 <= p < |programH| && stackLevel[p] >= k ==>
          programH[p].subProgramId == old(programH[p].subProgramId)
      {
        ghost var before := programH;
        BuildLevel(k, maxLevel);
        forall m | 0 <= m < k
          ensures CallsNextLevel(stackLevel, programH, m) && NextLevelCalled(stackLevel, programH, m)
          ensures CallsCounted(stackLevel, programH, m)
        {
          assert CallsCounted(stackLevel, before, m);
          LevelKept(stackLevel, before, programH, k, m);
          CallsKept(stackLevel, before, programH, k, m, |stackLevel|);
        }
      }
    }
  }

  /** The programs of a level, in order, and no others. */
  ghost predicate AreLevel(lv: seq<nat>, k: nat, ids: seq<nat>) {
    && (forall i :: 0 <= i < |ids| ==> ids[i] < |lv| && lv[ids[i]] == k)
    && (forall id: nat :: id < |lv| && lv[id] == k ==> id in ids)
    && (forall i, j :: 0 <= i < j < |ids| ==> ids[i] < ids[j])
    && |ids| == LevelSize(lv, k, |lv|)
  }

  lemma LevelBuilt(lv: seq<nat>, ps: seq<Program>, k: nat, callers: seq<nat>, next: seq<nat>, pool: seq<nat>,
                   counts: seq<nat>)
    requires |ps| == |lv| && AreLevel(lv, k, callers) && AreLevel(lv, k + 1, next)
    requires |next| <= |pool| <= |next| + 1 && forall c :: c in pool <==> c in next
    requires |counts| == |callers| && Sum(counts, |callers|) == |pool|
    requires forall i :: 0 <= i < |callers| ==>
      ps[callers[i]].subProgramId == Share(pool, counts, i) && |ps[callers[i]].subProgramId| == counts[i]
    ensures CallsNextLevel(lv, ps, k) && NextLevelCalled(lv, ps, k) && CallsCounted(lv, ps, k)
  {
    CallsAreShares(lv, ps, k, callers, counts, |lv|, |callers|);
    SharesReach(lv, ps, callers, pool, counts, k);
  }

  lemma LevelKept(lv: seq<nat>, before: seq<Program>, after: seq<Program>, k: nat, m: nat)
    requires |lv| == |before| && OnlyLevelChanged(lv, before, after, k) && m != k
    requires CallsNextLevel(lv, before, m) && NextLevelCalled(lv, before, m)
    ensures CallsNextLevel(lv, after, m) && NextLevelCalled(lv, after, m)
  {
    forall p: nat, c: nat | 0 <= p < |after| && lv[p] == m && c in after[p].subProgramId
      ensures c < |lv| && lv[c] == m + 1
    {
      assert after[p] == before[p];
    }
    forall c: nat | c < |lv| && lv[c] == m + 1
      ensures HasCaller(lv, after, m, c)
    {
      assert HasCaller(lv, before, m, c);
      var p :| 0 <= p < |before| && lv[p] == m && c in before[p].subProgramId;
      assert c in after[p].subProgramId;
    }
  }

  /** Every next program once, possibly one of them again, shuffled. */
  method DrawPool(next: seq<nat>) returns (pool: seq<nat>)
    requires next != []
    ensures |next| <= |pool| <= |next| + 1
    ensures forall c :: c in pool <==> c in next
  {
    var total :| |next| <= total <= |next| + 1;
    var plain := next;
    if total > |next| {
      var again :| 0 <= again < |next|;
      plain := plain + [next[again]];
    }
    pool :| multiset(pool) == multiset(plain);
    assert |multiset(pool)| == |pool| && |multiset(plain)| == |plain|;
    assert forall c :: c in pool <==> c in multiset(pool);
    assert forall c :: c in plain <==> c in multiset(plain);
  }

  /** Some numbers of calls, one for each caller, that use up the pool. */
  method DrawCounts(callers: nat, poolSize: nat) returns (counts: seq<nat>)
    requires callers > 0
    ensures |counts| == callers && Sum(counts, callers) == poolSize
  {
    ghost var one := seq(callers, i => if i == 0 then poolSize else 0);
    SumConstant(one, callers);
    assert |one| == callers && Sum(one, |one|) == poolSize;
    counts :| |counts| == callers && Sum(counts, |counts|) == poolSize;
  }

  // ---------------------------------------------------------------- the call graph

  ghost predicate BuiltCalls(lv: seq<nat>, maxLevel: nat, ps: seq<Program>) {
    && LegalLevels(lv, maxLevel) && |ps| == |lv|
    && (forall k :: 0 <= k < LastLevel(lv) ==> CallsNextLevel(lv, ps, k) && NextLevelCalled(lv, ps, k))
    && (forall p :: 0 <= p < |ps| && lv[p] == LastLevel(lv) ==> ps[p].subProgramId == [])
  }

  /** A path of calls. */
  ghost predicate CallChain(ps: seq<Program>, path: seq<nat>) {
    && |path| >= 1 && path[0] < |ps|
    && forall i :: 0 <= i < |path| - 1 ==> path[i] < |ps| && path[i + 1] in ps[path[i]].subProgramId
  }

  lemma {:induction false} ChainLevels(lv: seq<nat>, maxLevel: nat, ps: seq<Program>, path: seq<nat>, i: nat)
    requires BuiltCalls(lv, maxLevel, ps) && CallChain(ps, path) && i < |path|
    ensures path[i] < |lv| && lv[path[i]] == lv[path[0]] + i
  {
    if i == 0 {
    } else {
      ChainLevels(lv, maxLevel, ps, path, i - 1);
      var p := path[i - 1];
      assert path[i - 1 + 1] in ps[p].subProgramId;
      LevelsAscend(lv, maxLevel, p, |lv| - 1);
      assert lv[p] < LastLevel(lv);
      assert CallsNextLevel(lv, ps, lv[p]);
    }
  }

  /** Calls never nest deeper than the last level, and never come back to a program they are in. */
  lemma CallsAreBounded(lv: seq<nat>, maxLevel: nat, ps: seq<Program>, path: seq<nat>)
    requires BuiltCalls(lv, maxLevel, ps) && CallChain(ps, path)
    ensures |path| <= LastLevel(lv) + 1
    ensures forall i, j :: 0 <= i < j < |path| ==> path[i] != path[j]
  {
    ChainLevels(lv, maxLevel, ps, path, |path| - 1);
    LevelsAscend(lv, maxLevel, path[|path| - 1], |lv| - 1);
    forall i, j | 0 <= i < j < |path|
      ensures path[i] != path[j]
    {
      ChainLevels(lv, maxLevel, ps, path, i);
      ChainLevels(lv, maxLevel, ps, path, j);
    }
  }

  /** No program is obsolete: each is reached from program 0, by as many calls as its level. */
  lemma {:induction false} EveryProgramReached(lv: seq<nat>, maxLevel: nat, ps: seq<Program>, c: nat)
    returns (path: seq<nat>)
    requires BuiltCalls(lv, maxLevel, ps) && c < |lv|
    ensures CallChain(ps, path) && path[0] == 0 && path[|path| - 1] == c && |path| == lv[c] + 1
    decreases lv[c]
  {
    if lv[c] == 0 {
      path := [0];
    } else {
      var k := lv[c] - 1;
      LevelsAscend(lv, maxLevel, c, |lv| - 1);
      assert NextLevelCalled(lv, ps, k) && HasCaller(lv, ps, k, c);
      var p :| 0 <= p < |ps| && lv[p] == k && c in ps[p].subProgramId;
      var front := EveryProgramReached(lv, maxLevel, ps, p);
      path := front + [c];
    }
  }

  // ---------------------------------------------------------------- the counting distribution

  /**
   * The other generator's way to count callees: it never draws the last caller, and raises when that is the
   * only one.
   */
  method CountCallees(callers: nat, poolSize: nat) returns (raised: bool, counts: seq<nat>)
    ensures raised <==> poolSize > 0 && callers <= 1
    ensures !raised ==> |counts| == callers && Sum(counts, callers) == poolSize
    ensures !raised && callers > 0 ==> counts[callers - 1] == 0
  {
    counts := seq(callers, _ => 0);
    raised := false;
    if callers > 0 {
      SumConstant(counts, callers);
    }
    for j := 0 to poolSize
      invariant |counts| == callers && Sum(counts, callers) == j
      invariant j > 0 ==> callers > 1
      invariant callers > 0 ==> counts[callers - 1] == 0
    {
      if callers <= 1 {
        raised := true;
        return;
      }
      var caller: nat :| 0 <= caller < callers - 1;
      SumUpdate(counts, callers, caller);
      counts := counts[caller := counts[caller] + 1];
    }
  }

  lemma {:induction false} SumUpdate(s: seq<nat>, n: nat, i: nat)
    requires i < |s| && n <= |s|
    ensures Sum(s[i := s[i] + 1], n) == Sum(s, n) + (if i < n then 1 else 0)
  {
    if n == 0 {
    } else {
      SumUpdate(s, n - 1, i);
    }
  }

  lemma FirstTwo(ids: seq<nat>)
    requires forall i, j :: 0 <= i < j < |ids| ==> ids[i] < ids[j]
    ensures |ids| > 1 ==> ids[0] < ids[1]
  {
  }

  /**
   * The first level of that generator: level 0 has program 0 only, so counting raises for every legal tree
   * of more than one level.
   */
  method CountTopLevel(lv: seq<nat>, ghost maxLevel: nat) returns (raised: bool)
    requires LegalLevels(lv, maxLevel)
    ensures raised <==> LastLevel(lv) > 0
  {
    raised := false;
    if LastLevel(lv) > 0 {
      var callers := ProgramsAt(lv, 0);
      var next := ProgramsAt(lv, 1);
      LevelInhabited(lv, maxLevel, |lv| - 1, 1);
      FirstTwo(callers);
      var counts;
      raised, counts := CountCallees(|callers|, |next|);
    }
  }
}
