/** What `mix_instr_stream` keeps of the order of the two lists it mixes. */
module MixOrder {
  import opened InstrStream

  /** Where the `i`-th new instruction stands after `n` insertions. */
  ghost function FinalIndex(pos: seq<int>, n: nat, i: nat): int
    requires i < n <= |pos|
  {
    if i == n - 1 then pos[i] + i
    else
      var f := FinalIndex(pos, n - 1, i);
      if f >= pos[n - 1] + n - 1 then f + 1 else f
  }

  lemma {:induction false} NewAtFinalIndex<T>(list: seq<T>, newInstr: seq<T>, pos: seq<int>, n: nat, i: nat)
    requires |pos| == |newInstr| && MixInBounds(pos, |list|) && i < n <= |pos|
    ensures 0 <= FinalIndex(pos, n, i) < |list| + n
    ensures Mixed(list, newInstr, pos, n)[FinalIndex(pos, n, i)] == newInstr[i]
  {
    if i == n - 1 {
    } else {
      NewAtFinalIndex(list, newInstr, pos, n - 1, i);
    }
  }

  /** How many of the first `n` positions are at or before `j`. */
  ghost function CountUpTo(pos: seq<int>, n: nat, j: int): (c: nat)
    requires n <= |pos|
    ensures c <= n
  {
    if n == 0 then 0 else CountUpTo(pos, n - 1, j) + (if pos[n - 1] <= j then 1 else 0)
  }

  lemma {:induction false} AllUpTo(pos: seq<int>, n: nat, j: int)
    requires n <= |pos| && forall i :: 0 <= i < n ==> pos[i] <= j
    ensures CountUpTo(pos, n, j) == n
  {
    if n == 0 {
    } else {
      AllUpTo(pos, n - 1, j);
    }
  }

  /** Over sorted positions, the new instruction `i` ends at `pos[i] + i`. */
  lemma {:induction false} SortedNewAt<T>(list: seq<T>, newInstr: seq<T>, pos: seq<int>, n: nat, i: nat)
    requires |pos| == |newInstr| && MixInBounds(pos, |list|) && SortedIn(pos, |list|) && i < n <= |pos|
    ensures Mixed(list, newInstr, pos, n)[pos[i] + i] == newInstr[i]
  {
    if i == n - 1 {
    } else {
      SortedNewAt(list, newInstr, pos, n - 1, i);
      assert pos[i] + i < pos[n - 1] + n - 1;
    }
  }

  /** Over sorted positions, every old instruction is shifted by the positions at or before it. */
  lemma {:induction false} SortedOldAt<T>(list: seq<T>, newInstr: seq<T>, pos: seq<int>, n: nat, j: nat)
    requires |pos| == |newInstr| && MixInBounds(pos, |list|) && SortedIn(pos, |list|) && n <= |pos| && j < |list|
    ensures j + CountUpTo(pos, n, j) < |Mixed(list, newInstr, pos, n)|
    ensures Mixed(list, newInstr, pos, n)[j + CountUpTo(pos, n, j)] == list[j]
  {
    if n == 0 {
    } else {
      SortedOldAt(list, newInstr, pos, n - 1, j);
      OneMoreMixed(list, newInstr, pos, n, j);
    }
  }

  lemma OneMoreMixed<T>(list: seq<T>, newInstr: seq<T>, pos: seq<int>, n: nat, j: nat)
    requires |pos| == |newInstr| && MixInBounds(pos, |list|) && SortedIn(pos, |list|) && 0 < n <= |pos| && j < |list|
    requires j + CountUpTo(pos, n - 1, j) < |Mixed(list, newInstr, pos, n - 1)|
    ensures j + CountUpTo(pos, n, j) < |Mixed(list, newInstr, pos, n)|
    ensures Mixed(list, newInstr, pos, n)[j + CountUpTo(pos, n, j)] ==
            Mixed(list, newInstr, pos, n - 1)[j + CountUpTo(pos, n - 1, j)]
  {
    OldShifted(pos, |list|, n, j);
    MixedStep(list, newInstr, pos, n, j + CountUpTo(pos, n - 1, j));
  }

  /** What the `n`-th insertion does to an instruction already in the list. */
  lemma MixedStep<T>(list: seq<T>, newInstr: seq<T>, pos: seq<int>, n: nat, k: nat)
    requires |pos| == |newInstr| && MixInBounds(pos, |list|) && 0 < n <= |pos|
    requires k < |Mixed(list, newInstr, pos, n - 1)|
    ensures var to := if k < pos[n - 1] + n - 1 then k else k + 1;
            to < |Mixed(list, newInstr, pos, n)| &&
            Mixed(list, newInstr, pos, n)[to] == Mixed(list, newInstr, pos, n - 1)[k]
  {
    SpliceOne(Mixed(list, newInstr, pos, n - 1), newInstr[n - 1], pos[n - 1] + n - 1, k);
  }

  /** The `n`-th insertion is at or before an old instruction exactly when its position is. */
  lemma OldShifted(pos: seq<int>, count: nat, n: nat, j: nat)
    requires SortedIn(pos, count) && 0 < n <= |pos| && j < count
    ensures var k, at := j + CountUpTo(pos, n - 1, j), pos[n - 1] + n - 1;
            j + CountUpTo(pos, n, j) == if k < at then k else k + 1
  {
    if pos[n - 1] <= j {
      AllUpTo(pos, n - 1, j);
    }
  }

  lemma SpliceOne<T>(list: seq<T>, x: T, at: nat, k: nat)
    requires at <= |list| && k < |list|
    ensures Splice(list, [x], at)[if k < at then k else k + 1] == list[k]
  {
  }

  /** The new instructions stand in the order they were given in. */
  ghost predicate KeepsOrder(pos: seq<int>) {
    forall i, j :: 0 <= i < j < |pos| ==> FinalIndex(pos, |pos|, i) < FinalIndex(pos, |pos|, j)
  }

  lemma {:induction false} SortedFinalIndex(pos: seq<int>, n: nat, i: nat, count: nat)
    requires SortedIn(pos, count) && i < n <= |pos|
    ensures FinalIndex(pos, n, i) == pos[i] + i
  {
    if i == n - 1 {
    } else {
      SortedFinalIndex(pos, n - 1, i, count);
    }
  }

  /** A mix that need not contain the list always keeps the order. */
  lemma FreeMixKeepsOrder(pos: seq<int>, n: nat, count: nat)
    requires MixPositions(pos, n, count, false)
    ensures SortedIn(pos, count) && KeepsOrder(pos)
  {
    forall i | 0 <= i < n
      ensures FinalIndex(pos, n, i) == pos[i] + i
    {
      SortedFinalIndex(pos, n, i, count);
    }
  }

  /** A containing mix keeps the order exactly when the position before the last was not drawn at the list's end. */
  lemma ContainedMixKeepsOrder(pos: seq<int>, n: nat, count: nat)
    requires MixPositions(pos, n, count, true) && n >= 2
    ensures KeepsOrder(pos) <==> pos[n - 2] < count
    ensures pos[n - 2] < count ==> SortedIn(pos, count)
  {
    var drawn: seq<int> :| |drawn| == n && SortedIn(drawn, count) && pos == drawn[0 := 0][n - 1 := count - 1];
    if pos[n - 2] < count {
      assert SortedIn(pos, count) by {
        forall i, j | 0 <= i < j < |pos|
          ensures pos[i] <= pos[j]
        {
          assert i <= n - 2;
          assert i > 0 ==> drawn[i] <= drawn[n - 2] && pos[i] == drawn[i];
        }
      }
      forall i | 0 <= i < n
        ensures FinalIndex(pos, n, i) == pos[i] + i
      {
        SortedFinalIndex(pos, n, i, count);
      }
    } else {
      assert FinalIndex(pos, n - 1, n - 2) == pos[n - 2] + n - 2;
      assert pos[n - 2] == count || (n == 2 && count == 0);
      assert FinalIndex(pos, n, n - 2) > FinalIndex(pos, n, n - 1);
    }
  }

  /**
   * What `contained` promises at the end, for every draw: the last new instruction is the last of all only
   * where it is alone and there is nothing to contain; with two or more it is always the last but one.
   */
  lemma ContainedMixLastNew<T>(list: seq<T>, newInstr: seq<T>, pos: seq<int>)
    requires newInstr != [] && MixPositions(pos, |newInstr|, |list|, true) && MixInBounds(pos, |list|)
    ensures var r, at := Mixed(list, newInstr, pos, |pos|), FinalIndex(pos, |pos|, |pos| - 1);
            && 0 <= at < |r| && r[at] == newInstr[|newInstr| - 1]
            && at == (if |newInstr| == 1 then 0 else |r| - 2)
            && (at == |r| - 1 <==> |newInstr| == 1 && list == [])
  {
    NewAtFinalIndex(list, newInstr, pos, |pos|, |pos| - 1);
  }

  /** In order, the containing mix starts with the first new instruction but ends with the last old one. */
  lemma ContainedMixEnds<T>(list: seq<T>, newInstr: seq<T>, pos: seq<int>)
    requires |newInstr| >= 2 && list != [] && MixPositions(pos, |newInstr|, |list|, true) && MixInBounds(pos, |list|)
    requires pos[|pos| - 2] < |list|
    ensures var r := Mixed(list, newInstr, pos, |pos|);
            r[0] == newInstr[0] && r[|r| - 1] == list[|list| - 1]
  {
    ContainedMixKeepsOrder(pos, |newInstr|, |list|);
    assert pos[0] == 0 && forall i :: 0 <= i < |pos| ==> pos[i] <= |list| - 1;
    SortedMixEnds(list, newInstr, pos);
  }

  /** Sorted positions below the last old instruction's, the first of them 0. */
  lemma SortedMixEnds<T>(list: seq<T>, newInstr: seq<T>, pos: seq<int>)
    requires |pos| == |newInstr| >= 1 && MixInBounds(pos, |list|) && SortedIn(pos, |list|) && list != []
    requires pos[0] == 0 && forall i :: 0 <= i < |pos| ==> pos[i] <= |list| - 1
    ensures var r := Mixed(list, newInstr, pos, |pos|);
            r[0] == newInstr[0] && r[|r| - 1] == list[|list| - 1]
  {
    SortedNewAt(list, newInstr, pos, |pos|, 0);
    SortedOldAt(list, newInstr, pos, |pos|, |list| - 1);
    AllUpTo(pos, |pos|, |list| - 1);
  }

  /** Where the order is lost, the instruction before the last new one is what stands last. */
  lemma ContainedMixDisorder<T>(list: seq<T>, newInstr: seq<T>, pos: seq<int>)
    requires |newInstr| >= 2 && MixPositions(pos, |newInstr|, |list|, true) && MixInBounds(pos, |list|)
    requires pos[|pos| - 2] >= |list|
    ensures var r := Mixed(list, newInstr, pos, |pos|);
            r[|r| - 1] == newInstr[|newInstr| - 2]
  {
    LastMiddleAtEnd(pos, |newInstr|, |list|);
    NewAtFinalIndex(list, newInstr, pos, |pos|, |pos| - 2);
    assert FinalIndex(pos, |pos| - 1, |pos| - 2) == |list| + |pos| - 2;
  }

  lemma LastMiddleAtEnd(pos: seq<int>, n: nat, count: nat)
    requires n >= 2 && MixPositions(pos, n, count, true) && pos[n - 2] >= count
    ensures pos[n - 2] == count && pos[n - 1] == count - 1
  {
  }

  /** Position `j` of the list after `n` insertions is a new instruction's. */
  ghost predicate IsNew(pos: seq<int>, n: nat, j: int)
    requires n <= |pos|
  {
    exists i: nat :: i < n && FinalIndex(pos, n, i) == j
  }

  /** Every place of the mixed list is a new instruction's or holds an old one. */
  lemma {:induction false} ElsewhereOld<T>(list: seq<T>, newInstr: seq<T>, pos: seq<int>, n: nat, j: nat)
    requires |pos| == |newInstr| && MixInBounds(pos, |list|) && n <= |pos| && j < |list| + n
    ensures IsNew(pos, n, j) || Mixed(list, newInstr, pos, n)[j] in list
  {
    if n == 0 {
    } else {
      var at, m := pos[n - 1] + n - 1, n - 1;
      if j == at {
        assert FinalIndex(pos, n, m) == j;
      } else {
        var k := if j < at then j else j - 1;
        ElsewhereOld(list, newInstr, pos, m, k);
        MixedStep(list, newInstr, pos, n, k);
        if i: nat :| i < m && FinalIndex(pos, m, i) == k {
          assert FinalIndex(pos, n, i) == j;
        }
      }
    }
  }

  lemma {:induction false} SortedPrefixIndex(pos: seq<int>, m: nat, n: nat, i: nat)
    requires n <= m <= |pos| && i < n && forall j, k :: 0 <= j < k < m ==> pos[j] <= pos[k]
    ensures FinalIndex(pos, n, i) == pos[i] + i
  {
    if i == n - 1 {
    } else {
      SortedPrefixIndex(pos, m, n - 1, i);
    }
  }

  /** Where a containing mix puts each new instruction but the last. */
  lemma ContainedIndex(pos: seq<int>, n: nat, count: nat, i: nat)
    requires MixPositions(pos, n, count, true) && n >= 2 && i < n - 1
    ensures FinalIndex(pos, n, i) == pos[i] + i + (if i == n - 2 && pos[i] >= count then 1 else 0)
    ensures i == n - 2 || pos[i] <= count
  {
    var drawn: seq<int> :| |drawn| == n && SortedIn(drawn, count) && pos == drawn[0 := 0][n - 1 := count - 1];
    SortedPrefixIndex(pos, n - 1, n - 1, i);
  }

  lemma ContainedSorted(pos: seq<int>, n: nat, count: nat, i: nat, j: nat)
    requires MixPositions(pos, n, count, true) && n >= 2 && i < j < n - 1
    ensures pos[i] <= pos[j]
  {
  }

  /** A containing mix keeps the order of all new instructions but the last, and says where that one comes. */
  lemma ContainedMixOrder(pos: seq<int>, n: nat, count: nat)
    requires MixPositions(pos, n, count, true) && n >= 2
    ensures forall i, j :: 0 <= i < j < n - 1 ==> FinalIndex(pos, n, i) < FinalIndex(pos, n, j)
    ensures forall i :: 0 <= i < n - 2 ==> FinalIndex(pos, n, i) < FinalIndex(pos, n, n - 1)
    ensures FinalIndex(pos, n, n - 2) < FinalIndex(pos, n, n - 1) <==> pos[n - 2] < count
  {
    ContainedIndex(pos, n, count, n - 2);
    forall i, j | 0 <= i < j < n - 1
      ensures FinalIndex(pos, n, i) < FinalIndex(pos, n, j)
    {
      ContainedIndex(pos, n, count, i);
      ContainedIndex(pos, n, count, j);
      ContainedSorted(pos, n, count, i, j);
    }
    forall i | 0 <= i < n - 2
      ensures FinalIndex(pos, n, i) < FinalIndex(pos, n, n - 1)
    {
      ContainedIndex(pos, n, count, i);
    }
  }
}
