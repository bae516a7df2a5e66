/** Instruction lists and the operations that grow them (pygen/pygen_src/riscv_instr_stream.py). */
module InstrStream {
  datatype Category = BRANCH | JUMP | OTHER

  /** A label string: none, a bare number, or a name. */
  datatype Label = NoLabel | Numeric(n: int) | Named(s: string)

  /** An immediate string as a control-flow target: `Nf`, `Nb`, or a name. */
  datatype Target = NoTarget | Forward(n: int) | Backward(n: int) | ToName(s: string)

  /** The fields of `riscv_instr` that stream assembly reads or writes; `text` stands for all the others. */
  datatype Instr = Instr(
    category: Category,
    atomic: bool,
    hasLabel: bool,
    tag: Label,
    isLocalNumeric: bool,
    idx: int,
    branchAssigned: bool,
    isIllegal: bool,
    target: Target,
    text: string)

  // ---------------------------------------------------------------- splicing

  /** `list` with `s` put in before position `k`. */
  function Splice<T>(list: seq<T>, s: seq<T>, k: nat): seq<T>
    requires k <= |list|
  {
    list[..k] + s + list[k..]
  }

  /** `list` with position `k` taken by `s`, whose first instruction gets the label of the one it replaces. */
  function Replaced(list: seq<Instr>, s: seq<Instr>, k: nat): seq<Instr>
    requires k < |list| && s != []
  {
    list[..k] + [s[0].(tag := list[k].tag, hasLabel := list[k].hasLabel)] + s[1..] + list[k + 1..]
  }

  /**
   * A replaced list, place by place: the new stream stands where the one instruction was, which gives its label to
   * the stream's first and is gone, and everything else is as it was.
   */
  lemma ReplacedAt(list: seq<Instr>, s: seq<Instr>, k: nat, i: nat)
    requires k < |list| && s != [] && i < |list| + |s| - 1
    ensures var r := Replaced(list, s, k);
            && |r| == |list| + |s| - 1
            && (i < k ==> r[i] == list[i])
            && (i == k ==> r[i] == s[0].(tag := list[k].tag, hasLabel := list[k].hasLabel))
            && (k < i < k + |s| ==> r[i] == s[i - k])
            && (i >= k + |s| ==> r[i] == list[i - |s| + 1])
  {
  }

  predicate AllAtomic(s: seq<Instr>) {
    forall i :: 0 <= i < |s| ==> s[i].atomic
  }

  /** Where a search from `k` puts an instruction in. */
  function PlaceFrom(list: seq<Instr>, k: nat): (r: nat)
    requires k < |list|
    ensures k <= r <= |list|
    ensures forall j :: k <= j < r && j < |list| - 1 ==> list[j].atomic
    ensures r < |list| - 1 ==> !list[r].atomic
    ensures r == |list| - 1 ==> k == r
    decreases |list| - k
  {
    if !list[k].atomic then k
    else if k + 1 >= |list| - 1 then |list|
    else PlaceFrom(list, k + 1)
  }

  class Stream {
    var instrList: seq<Instr>

    constructor (list: seq<Instr>)
      ensures instrList == list
    {
      instrList := list;
    }

    /**
     * Inserts a stream, at a random place when `idx` is -1. `ok` is false where the program exits or raises.
     * At a random place, what follows the stream is never atomic, whatever the retries draw.
     */
    method InsertInstrStream(newInstr: seq<Instr>, idx: int, replace: bool) returns (ok: bool, ghost at: nat)
      modifies this
      ensures !ok ==> instrList == old(instrList)
      ensures ok ==> at <= |old(instrList)|
      ensures old(instrList) == [] ==> ok && at == 0 && instrList == newInstr
      ensures old(instrList) != [] && idx == -1 ==>
                (ok <==> !AllAtomic(old(instrList)) && (replace ==> newInstr != []))
      ensures old(instrList) != [] && idx == -1 && ok ==> at < |old(instrList)| && !old(instrList)[at].atomic
      ensures old(instrList) != [] && idx != -1 ==>
                && (ok <==> 0 <= idx <= |old(instrList)| && (replace ==> newInstr != [] && idx < |old(instrList)|))
                && (ok ==> at == idx)
      ensures old(instrList) != [] && ok && !replace ==> instrList == Splice(old(instrList), newInstr, at)
      ensures old(instrList) != [] && ok && replace ==>
                && newInstr != [] && at < |old(instrList)|
                && instrList == Replaced(old(instrList), newInstr, at)
    {
      var count := |instrList|;
      ok, at := true, 0;
      if count == 0 {
        instrList := newInstr;
        return;
      }
      var place := idx;
      if place == -1 {
        ok, place := DrawPlace(instrList);
        if !ok {
          return;
        }
      } else if place > count || place < 0 {
        ok := false;
        return;
      }
      at := place;
      if replace && (newInstr == [] || place == count) {
        ok := false;
        return;
      }
      PutStream(newInstr, place, replace);
    }

    /** Puts the stream in at a place, before the instruction there or instead of it. */
    method PutStream(newInstr: seq<Instr>, place: nat, replace: bool)
      requires place <= |instrList| && (replace ==> newInstr != [] && place < |instrList|)
      modifies this
      ensures !replace ==> instrList == Splice(old(instrList), newInstr, place)
      ensures replace ==> instrList == Replaced(old(instrList), newInstr, place)
    {
      if replace {
        var patched := newInstr[0 := newInstr[0].(tag := instrList[place].tag, hasLabel := instrList[place].hasLabel)];
        if place == 0 {
          instrList := patched + instrList[place + 1..];
        } else {
          instrList := instrList[..place] + patched + instrList[place + 1..];
        }
      } else if place == 0 {
        instrList := newInstr + instrList[place..];
      } else {
        instrList := instrList[..place] + newInstr + instrList[place..];
      }
    }

    /**
     * Inserts one instruction, at a random place when `idx` is -1: before the first instruction that is not
     * atomic from the one drawn on, the last one not being looked at, and at the end where there is none. The
     * search steps over the end of the list exactly when it starts on an atomic last instruction, and then it
     * raises.
     */
    method InsertInstr(instr: Instr, idx: int) returns (ok: bool, ghost drawn: int)
      modifies this
      ensures !ok ==> instrList == old(instrList)
      ensures idx != -1 ==> (ok <==> 0 <= idx <= |old(instrList)|)
      ensures idx != -1 && ok ==> instrList == Splice(old(instrList), [instr], idx)
      ensures idx == -1 && old(instrList) == [] ==> !ok
      ensures idx == -1 && old(instrList) != [] ==>
                && 0 <= drawn < |old(instrList)|
                && (!ok <==> drawn == |old(instrList)| - 1 && old(instrList)[drawn].atomic)
      ensures idx == -1 && ok ==> instrList == Splice(old(instrList), [instr], PlaceFrom(old(instrList), drawn))
    {
      var count := |instrList|;
      var place := idx;
      ok, drawn := true, -1;
      if idx == -1 {
        if count == 0 {
          ok := false;
          return;
        }
        place :| 0 <= place < count;
        drawn := place;
        while place < count && instrList[place].atomic
          invariant drawn <= place <= count && instrList == old(instrList)
          invariant drawn < place ==> place != count - 1 && instrList[drawn].atomic
          invariant place == count ==> drawn == count - 1
          invariant place < count ==> PlaceFrom(instrList, drawn) == PlaceFrom(instrList, place)
        {
          place := place + 1;
          if place == count - 1 {
            assert instrList + [instr] == Splice(instrList, [instr], count);
            instrList := instrList + [instr];
            return;
          }
        }
        if place == count {
          ok := false;
          return;
        }
      } else if idx > count || idx < 0 {
        ok := false;
        return;
      }
      instrList := instrList[..place] + [instr] + instrList[place..];
    }

    /** The end of `gen_instr`: a branch is not left last, as it would have nothing to branch to. */
    method DropTrailingBranches()
      requires instrList != []
      modifies this
      ensures instrList == [] || instrList[|instrList| - 1].category != BRANCH
      ensures instrList <= old(instrList)
      ensures forall i :: |instrList| <= i < |old(instrList)| ==> old(instrList)[i].category == BRANCH
    {
      while instrList[|instrList| - 1].category == BRANCH
        invariant instrList != [] && instrList <= old(instrList)
        invariant forall i :: |instrList| <= i < |old(instrList)| ==> old(instrList)[i].category == BRANCH
        decreases |instrList|
      {
        instrList := instrList[..|instrList| - 1];
        if instrList == [] {
          break;
        }
      }
    }

    /** Inserts the `i`-th new instruction where its position, moved by those before it, now is. */
    method MixOne(newInstr: seq<Instr>, places: seq<int>, count: nat, i: nat, ghost list: seq<Instr>)
      requires i < |newInstr| == |places| && MixInBounds(places, count) && |list| == count
      requires instrList == Mixed(list, newInstr, places, i)
      modifies this
      ensures instrList == Mixed(list, newInstr, places, i + 1)
    {
      var ok, _ := InsertInstr(newInstr[i], places[i] + i);
    }

    /**
     * Spreads `newInstr` over the list at sorted random places. `raised` is true where the program fails:
     * asked to contain the list in nothing.
     */
    method MixInstrStream(newInstr: seq<Instr>, contained: bool) returns (raised: bool, ghost pos: seq<int>)
      modifies this
      ensures raised <==> contained && newInstr == []
      ensures raised ==> instrList == old(instrList)
      ensures !raised ==> MixPositions(pos, |newInstr|, |old(instrList)|, contained)
      ensures !raised ==> MixInBounds(pos, |old(instrList)|)
      ensures !raised ==> instrList == Mixed(old(instrList), newInstr, pos, |newInstr|)
    {
      var count := |instrList|;
      pos := [];
      if contained && newInstr == [] {
        raised := true;
        return;
      }
      raised := false;
      var places := DrawPositions(|newInstr|, count, contained);
      pos := places;
      for i := 0 to |newInstr|
        invariant instrList == Mixed(old(instrList), newInstr, pos, i)
        invariant |instrList| == count + i
      {
        MixOne(newInstr, places, count, i, old(instrList));
      }
    }
  }

  /** A random place that is not atomic: up to ten retries of the draw, then the first there is. */
  method DrawPlace(list: seq<Instr>) returns (ok: bool, place: int)
    requires list != []
    ensures ok <==> !AllAtomic(list)
    ensures ok ==> 0 <= place < |list| && !list[place].atomic
  {
    ok := true;
    place :| 0 <= place < |list|;
    for i := 0 to 10
      invariant 0 <= place < |list|
    {
      if list[place].atomic {
        break;
      }
      place :| 0 <= place < |list|;
    }
    if list[place].atomic {
      for i := 0 to |list|
        invariant forall j :: 0 <= j < i ==> list[j].atomic
        invariant list[place].atomic && 0 <= place < |list|
      {
        if !list[i].atomic {
          place := i;
          break;
        }
      }
      if list[place].atomic {
        ok := false;
      }
    }
  }

  // ---------------------------------------------------------------- mixing

  predicate SortedIn(pos: seq<int>, count: int) {
    && (forall i :: 0 <= i < |pos| ==> 0 <= pos[i] <= count)
    && (forall i, j :: 0 <= i < j < |pos| ==> pos[i] <= pos[j])
  }

  method DrawPositions(n: nat, count: nat, contained: bool) returns (pos: seq<int>)
    requires contained ==> n > 0
    ensures MixPositions(pos, n, count, contained) && MixInBounds(pos, count)
  {
    assert SortedIn(seq(n, _ => 0), count);
    var drawn: seq<int> :| |drawn| == n && SortedIn(drawn, count);
    assert SortedIn(drawn, count);
    pos := drawn;
    if contained {
      pos := pos[0 := 0];
      if n > 1 {
        pos := pos[n - 1 := count - 1];
      }
    }
  }

  /** The positions a mix can use: sorted draws, with the first and last overwritten when `contained`. */
  ghost predicate MixPositions(pos: seq<int>, n: nat, count: nat, contained: bool) {
    && |pos| == n
    && exists drawn: seq<int> ::
         && |drawn| == n && SortedIn(drawn, count)
         && pos == if !contained then drawn
                   else if n == 0 then drawn
                   else if n == 1 then drawn[0 := 0]
                   else drawn[0 := 0][n - 1 := count - 1]
  }

  ghost predicate MixInBounds(pos: seq<int>, count: nat) {
    forall i :: 0 <= i < |pos| ==> 0 <= pos[i] + i <= count + i
  }

  /** The list after inserting the first `n` new instructions one by one. */
  ghost function Mixed<T>(list: seq<T>, newInstr: seq<T>, pos: seq<int>, n: nat): (r: seq<T>)
    requires |pos| == |newInstr| && MixInBounds(pos, |list|) && n <= |pos|
    ensures |r| == |list| + n
  {
    if n == 0 then list
    else Splice(Mixed(list, newInstr, pos, n - 1), [newInstr[n - 1]], pos[n - 1] + n - 1)
  }
}
