/** Turning Renode register dumps into trace entries (scripts/renode_log_to_trace_csv.py). */
module RenodeLog {
  import opened Hex

  /** A name in a register dump. */
  datatype Key = X(n: nat) | PC | OtherKey(name: string)

  type Dump = map<Key, string>

  datatype Line = Blank | Ecall | RegDump(fields: seq<(Key, string)>) | OtherLine

  datatype Entry = Entry(pc: string, gpr: seq<(nat, nat)>)

  /** The dump as a dictionary: the last of equal names counts. */
  function ToDump(fields: seq<(Key, string)>): Dump {
    if fields == [] then map[] else ToDump(fields[..|fields| - 1])[fields[|fields| - 1].0 := fields[|fields| - 1].1]
  }

  /** All registers zero; no PC. */
  function InitialState(): Dump {
    map x: nat | x < 32 :: X(x) := "0"
  }

  /** Register `x` is known in both states and its text differs. */
  predicate Differs(state: Dump, regs: Dump, x: nat) {
    X(x) in state && X(x) in regs && state[X(x)] != regs[X(x)]
  }

  /** The updates of the first `n` registers, or none where a value cannot be read. */
  function Updates(state: Dump, regs: Dump, n: nat): Option<seq<(nat, nat)>> {
    if n == 0 then Some([])
    else
      var front := Updates(state, regs, n - 1);
      var x: nat := n - 1;
      if front.None? then None
      else if !Differs(state, regs, x) then front
      else
        var v := HexVal(regs[X(x)]);
        if v.None? then None else Some(front.value + [(x, v.value)])
  }

  /** The dumps the reader takes note of: those before the ecall line. */
  function Dumps(lines: seq<Line>, n: nat): seq<Dump>
    requires n <= |lines|
  {
    if n == 0 then [] else Dumps(lines, n - 1) + (if lines[n - 1].RegDump? then [ToDump(lines[n - 1].fields)] else [])
  }

  function EcallFrom(lines: seq<Line>, from: nat): (q: nat)
    requires from <= |lines|
    ensures from <= q <= |lines|
    ensures forall k :: from <= k < q ==> !lines[k].Ecall?
    ensures q < |lines| ==> lines[q].Ecall?
    decreases |lines| - from
  {
    if from == |lines| || lines[from].Ecall? then from else EcallFrom(lines, from + 1)
  }

  function Before(dumps: seq<Dump>, n: nat): Dump
    requires n <= |dumps|
  {
    if n == 0 then InitialState() else dumps[n - 1]
  }

  function PrevPc(dumps: seq<Dump>, n: nat): Option<string>
    requires n <= |dumps|
  {
    if n == 0 then Some("80000000") else if PC in dumps[n - 1] then Some(dumps[n - 1][PC]) else None
  }

  /** The entries for the first `n` dumps; a dump that changes no register gives none. */
  function Trace(dumps: seq<Dump>, n: nat): Option<seq<Entry>>
    requires n <= |dumps|
  {
    if n == 0 then Some([])
    else
      var front, us, pc := Trace(dumps, n - 1), Updates(Before(dumps, n - 1), dumps[n - 1], 32), PrevPc(dumps, n - 1);
      if front.None? || us.None? || pc.None? || PC !in dumps[n - 1] then None
      else if us.value == [] then front
      else Some(front.value + [Entry(pc.value, us.value)])
  }

  method DiffState(state: Dump, regs: Dump) returns (us: Option<seq<(nat, nat)>>)
    ensures us == Updates(state, regs, 32)
  {
    var found: seq<(nat, nat)> := [];
    for x := 0 to 32
      invariant Updates(state, regs, x) == Some(found)
    {
      if X(x) in state && X(x) in regs && state[X(x)] != regs[X(x)] {
        var v := HexVal(regs[X(x)]);
        if v.None? {
          NoneStays(state, regs, x + 1, 32);
          return None;
        }
        found := found + [(x, v.value)];
      }
    }
    us := Some(found);
  }

  lemma {:induction false} NoneStays(state: Dump, regs: Dump, m: nat, n: nat)
    requires m <= n && Updates(state, regs, m) == None
    ensures Updates(state, regs, n) == None
  {
    if m == n {
    } else {
      NoneStays(state, regs, m, n - 1);
    }
  }

  lemma {:induction false} TraceNoneStays(dumps: seq<Dump>, m: nat, n: nat)
    requires m <= n <= |dumps| && Trace(dumps, m) == None
    ensures Trace(dumps, n) == None
  {
    if m == n {
    } else {
      TraceNoneStays(dumps, m, n - 1);
    }
  }

  lemma {:induction false} DumpsPrefix(lines: seq<Line>, m: nat, n: nat)
    requires m <= n <= |lines|
    ensures Dumps(lines, m) <= Dumps(lines, n)
  {
    if m == n {
    } else {
      DumpsPrefix(lines, m, n - 1);
    }
  }

  /** What one dump adds to the entries; none where it cannot be read. */
  method TakeDump(state: Dump, regs: Dump, prevPc: string, entries: seq<Entry>, ghost dumps: seq<Dump>, ghost k: nat)
    returns (after: Option<seq<Entry>>)
    requires k < |dumps| && dumps[k] == regs && state == Before(dumps, k)
    requires PrevPc(dumps, k) == Some(prevPc) && Trace(dumps, k) == Some(entries)
    ensures after == Trace(dumps, k + 1)
    ensures after.Some? ==> PC in regs
  {
    var us := DiffState(state, regs);
    if us.None? || PC !in regs {
      after := None;
    } else if us.value != [] {
      after := Some(entries + [Entry(prevPc, us.value)]);
    } else {
      after := Some(entries);
    }
  }

  /** The reader: keeps the last state and PC, and adds an entry for every dump that changes a register. */
  method ProcessRenodeSimLog(lines: seq<Line>) returns (trace: Option<seq<Entry>>)
    ensures var dumps := Dumps(lines, EcallFrom(lines, 0));
            trace == Trace(dumps, |dumps|)
  {
    ghost var stop := EcallFrom(lines, 0);
    ghost var dumps := Dumps(lines, stop);
    ghost var k: nat := 0;
    var prevPc := "80000000";
    var state := map x: nat | x < 32 :: X(x) := "0";
    var entries: seq<Entry> := [];
    var i := 0;
    while i < |lines| && !lines[i].Ecall?
      invariant 0 <= i <= |lines| && EcallFrom(lines, i) == stop
      invariant k <= |dumps| && Dumps(lines, i) == dumps[..k]
      invariant state == Before(dumps, k) && PrevPc(dumps, k) == Some(prevPc)
      invariant Trace(dumps, k) == Some(entries)
      decreases |lines| - i
    {
      if lines[i].RegDump? {
        DumpsPrefix(lines, i + 1, stop);
        var regs := ToDump(lines[i].fields);
        assert dumps[k] == regs;
        var after := TakeDump(state, regs, prevPc, entries, dumps, k);
        if after.None? {
          TraceNoneStays(dumps, k + 1, |dumps|);
          return None;
        }
        state, entries, prevPc := regs, after.value, regs[PC];
        k := k + 1;
      }
      i := i + 1;
    }
    trace := Some(entries);
  }

  // ---------------------------------------------------------------- what the entries say

  /** Of equal names the last counts, and no other names are in the dump. */
  lemma {:induction false} ToDumpLast(fields: seq<(Key, string)>, key: Key)
    ensures key in ToDump(fields) <==> exists i :: 0 <= i < |fields| && fields[i].0 == key
    ensures forall i :: 0 <= i < |fields| && fields[i].0 == key && (forall j :: i < j < |fields| ==> fields[j].0 != key)
              ==> key in ToDump(fields) && ToDump(fields)[key] == fields[i].1
  {
    if fields == [] {
    } else {
      var n := |fields| - 1;
      ToDumpLast(fields[..n], key);
      assert forall i :: 0 <= i < n ==> fields[..n][i] == fields[i];
      assert fields[n].0 == key || (key in ToDump(fields) <==> key in ToDump(fields[..n]));
    }
  }

  function DumpCount(lines: seq<Line>, n: nat): nat
    requires n <= |lines|
  {
    if n == 0 then 0 else DumpCount(lines, n - 1) + (if lines[n - 1].RegDump? then 1 else 0)
  }

  /** The dump lines before `n`, in order and no others. */
  lemma {:induction false} DumpsInOrder(lines: seq<Line>, n: nat, i: nat)
    requires i < n <= |lines|
    ensures |Dumps(lines, n)| == DumpCount(lines, n)
    ensures lines[i].RegDump? ==>
              && DumpCount(lines, i) < DumpCount(lines, n)
              && Dumps(lines, n)[DumpCount(lines, i)] == ToDump(lines[i].fields)
  {
    if i < n - 1 {
      DumpsInOrder(lines, n - 1, i);
    } else if 0 < i {
      DumpsInOrder(lines, i, i - 1);
    }
  }

  /** What is shown of a register before dump `k`: the dump before it, or "0" at first. */
  predicate ShownBefore(dumps: seq<Dump>, k: nat, x: nat, text: string)
    requires k < |dumps|
  {
    if k == 0 then text == "0" else X(x) in dumps[k - 1] && dumps[k - 1][X(x)] == text
  }

  /** Dump `k` shows register `x` with another text than what was shown before. */
  predicate ShowsNew(dumps: seq<Dump>, k: nat, x: nat)
    requires k < |dumps|
  {
    && x < 32 && X(x) in dumps[k] && !ShownBefore(dumps, k, x, dumps[k][X(x)])
    && (k > 0 ==> X(x) in dumps[k - 1])
  }

  /** The registers with a new text at dump `k`, ascending, each with the value its text spells. */
  ghost predicate ListsNew(dumps: seq<Dump>, k: nat, us: seq<(nat, nat)>)
    requires k < |dumps|
  {
    && (forall j :: 0 <= j < |us| ==>
          ShowsNew(dumps, k, us[j].0) && HexVal(dumps[k][X(us[j].0)]) == Some(us[j].1))
    && (forall i, j :: 0 <= i < j < |us| ==> us[i].0 < us[j].0)
    && (forall x :: ShowsNew(dumps, k, x) ==> exists j :: 0 <= j < |us| && us[j].0 == x)
  }

  ghost predicate AnyNew(dumps: seq<Dump>, k: nat)
    requires k < |dumps|
  {
    exists x :: ShowsNew(dumps, k, x)
  }

  /** How many of the first `n` dumps show something new. */
  ghost function NewCount(dumps: seq<Dump>, n: nat): nat
    requires n <= |dumps|
  {
    if n == 0 then 0 else NewCount(dumps, n - 1) + (if AnyNew(dumps, n - 1) then 1 else 0)
  }

  lemma {:induction false} UpdatesListed(state: Dump, regs: Dump, n: nat)
    requires Updates(state, regs, n).Some?
    ensures var us := Updates(state, regs, n).value;
            && (forall j :: 0 <= j < |us| ==>
                  && us[j].0 < n && Differs(state, regs, us[j].0) && HexVal(regs[X(us[j].0)]) == Some(us[j].1))
            && (forall i, j :: 0 <= i < j < |us| ==> us[i].0 < us[j].0)
            && (forall x: nat :: x < n && Differs(state, regs, x) ==> exists j :: 0 <= j < |us| && us[j].0 == x)
  {
    if n == 0 {
    } else {
      UpdatesListed(state, regs, n - 1);
      var front, us := Updates(state, regs, n - 1).value, Updates(state, regs, n).value;
      forall x: nat | x < n && Differs(state, regs, x)
        ensures exists j :: 0 <= j < |us| && us[j].0 == x
      {
        if x < n - 1 {
          var j :| 0 <= j < |front| && front[j].0 == x;
          assert us[j].0 == x;
        } else {
          assert us[|front|].0 == x;
        }
      }
    }
  }

  lemma DiffersIsNew(dumps: seq<Dump>, k: nat, x: nat)
    requires k < |dumps|
    ensures x < 32 && Differs(Before(dumps, k), dumps[k], x) <==> ShowsNew(dumps, k, x)
  {
  }

  lemma UpdatesAreNew(dumps: seq<Dump>, k: nat)
    requires k < |dumps| && Updates(Before(dumps, k), dumps[k], 32).Some?
    ensures ListsNew(dumps, k, Updates(Before(dumps, k), dumps[k], 32).value)
    ensures Updates(Before(dumps, k), dumps[k], 32).value == [] <==> !AnyNew(dumps, k)
  {
    var us := Updates(Before(dumps, k), dumps[k], 32).value;
    UpdatesListed(Before(dumps, k), dumps[k], 32);
    forall x: nat
      ensures x < 32 && Differs(Before(dumps, k), dumps[k], x) <==> ShowsNew(dumps, k, x)
    {
      DiffersIsNew(dumps, k, x);
    }
    if us != [] {
      assert ShowsNew(dumps, k, us[0].0);
    }
  }

  /**
   * One entry for each dump that shows something new, in order and no others: it lists what is new, under the
   * program counter of the dump before, or under "80000000" for the first dump.
   */
  lemma {:induction false} EntryForDump(dumps: seq<Dump>, n: nat, k: nat)
    requires k < n <= |dumps| && Trace(dumps, n).Some?
    ensures |Trace(dumps, n).value| == NewCount(dumps, n)
    ensures AnyNew(dumps, k) ==>
              && NewCount(dumps, k) < NewCount(dumps, n) && (k > 0 ==> PC in dumps[k - 1])
              && var e := Trace(dumps, n).value[NewCount(dumps, k)];
                 e.pc == (if k == 0 then "80000000" else dumps[k - 1][PC]) && ListsNew(dumps, k, e.gpr)
  {
    UpdatesAreNew(dumps, n - 1);
    if k < n - 1 {
      EntryForDump(dumps, n - 1, k);
    } else if 0 < k {
      EntryForDump(dumps, k, k - 1);
    }
  }

  /** The dump has a program counter, and what it shows new can be read as numbers. */
  ghost predicate Readable(dumps: seq<Dump>, k: nat)
    requires k < |dumps|
  {
    PC in dumps[k] && forall x :: ShowsNew(dumps, k, x) ==> HexVal(dumps[k][X(x)]).Some?
  }

  lemma {:induction false} UpdatesReadable(state: Dump, regs: Dump, n: nat)
    ensures Updates(state, regs, n).Some? <==>
            forall x: nat :: x < n && Differs(state, regs, x) ==> HexVal(regs[X(x)]).Some?
  {
    if n == 0 {
    } else {
      UpdatesReadable(state, regs, n - 1);
    }
  }

  /** There is a trace exactly when every dump can be read. */
  lemma {:induction false} TraceIffReadable(dumps: seq<Dump>, n: nat)
    requires n <= |dumps|
    ensures Trace(dumps, n).Some? <==> forall k :: 0 <= k < n ==> Readable(dumps, k)
  {
    if n == 0 {
    } else {
      TraceIffReadable(dumps, n - 1);
      ReadableUpdates(dumps, n - 1);
    }
  }

  lemma ReadableUpdates(dumps: seq<Dump>, k: nat)
    requires k < |dumps|
    ensures Readable(dumps, k) <==> PC in dumps[k] && Updates(Before(dumps, k), dumps[k], 32).Some?
  {
    UpdatesReadable(Before(dumps, k), dumps[k], 32);
    forall x: nat
      ensures x < 32 && Differs(Before(dumps, k), dumps[k], x) <==> ShowsNew(dumps, k, x)
    {
      DiffersIsNew(dumps, k, x);
    }
  }

  // ---------------------------------------------------------------- what the entries are good for

  /** The value of register `x` after the first `n` updates of an entry, from `v`. */
  function AfterUpdates(us: seq<(nat, nat)>, n: nat, x: nat, v: nat): nat
    requires n <= |us|
  {
    if n == 0 then v else if us[n - 1].0 == x then us[n - 1].1 else AfterUpdates(us, n - 1, x, v)
  }

  /** The value of register `x` after all the entries, from zero. */
  function Replayed(trace: seq<Entry>, x: nat): nat {
    if trace == [] then 0
    else
      var us := trace[|trace| - 1].gpr;
      AfterUpdates(us, |us|, x, Replayed(trace[..|trace| - 1], x))
  }

  lemma {:induction false} UpdatesReplay(state: Dump, regs: Dump, n: nat, x: nat, v: nat)
    requires Updates(state, regs, n).Some?
    ensures var us := Updates(state, regs, n).value;
            AfterUpdates(us, |us|, x, v) ==
            if x < n && Differs(state, regs, x) && HexVal(regs[X(x)]).Some? then HexVal(regs[X(x)]).value else v
    ensures x < n && Differs(state, regs, x) ==> HexVal(regs[X(x)]).Some?
  {
    if n == 0 {
    } else {
      UpdatesReplay(state, regs, n - 1, x, v);
      var front, us := Updates(state, regs, n - 1).value, Updates(state, regs, n).value;
      if |us| > |front| {
        AfterPrefix(front, us, |front|, x, v);
      }
    }
  }

  lemma {:induction false} AfterPrefix(us: seq<(nat, nat)>, more: seq<(nat, nat)>, n: nat, x: nat, v: nat)
    requires us <= more && n <= |us|
    ensures AfterUpdates(more, n, x, v) == AfterUpdates(us, n, x, v)
  {
    if n == 0 {
    } else {
      AfterPrefix(us, more, n - 1, x, v);
    }
  }

  /** One more dump: the register takes the value shown when its text differs, and keeps its value otherwise. */
  lemma ReplayStep(dumps: seq<Dump>, n: nat, x: nat)
    requires n < |dumps| && x < 32 && Trace(dumps, n + 1).Some?
    ensures Trace(dumps, n).Some?
    ensures var before, after := Replayed(Trace(dumps, n).value, x), Replayed(Trace(dumps, n + 1).value, x);
            if Differs(Before(dumps, n), dumps[n], x) then HexVal(dumps[n][X(x)]) == Some(after) else after == before
  {
    var state, regs := Before(dumps, n), dumps[n];
    var front, us := Trace(dumps, n).value, Updates(state, regs, 32).value;
    UpdatesReplay(state, regs, 32, x, Replayed(front, x));
    if us != [] {
      var e := Entry(PrevPc(dumps, n).value, us);
      assert (front + [e])[..|front|] == front;
    } else {
      assert AfterUpdates(us, 0, x, Replayed(front, x)) == Replayed(front, x);
    }
  }

  lemma ZeroText()
    ensures HexVal("0") == Some(0)
  {
  }

  /**
   * Replaying the entries from all zeros gives, at every dump, the value the dump shows, for each register that
   * every dump so far lists, though dumps that change nothing leave no entry.
   */
  lemma {:induction false} ReplayReconstructs(dumps: seq<Dump>, n: nat, x: nat)
    requires n <= |dumps| && x < 32 && Trace(dumps, n).Some?
    requires forall k :: 0 <= k < n ==> X(x) in dumps[k]
    ensures HexVal(Before(dumps, n)[X(x)]) == Some(Replayed(Trace(dumps, n).value, x))
  {
    if n == 0 {
      ZeroText();
    } else {
      ReplayStep(dumps, n - 1, x);
      ReplayReconstructs(dumps, n - 1, x);
    }
  }

  // ---------------------------------------------------------------- a register some dump leaves out

  /** Replaying the first `n` dumps' entries gives what the last of them shows for register `x`. */
  ghost predicate ReplayRight(dumps: seq<Dump>, n: nat, x: nat)
    requires n <= |dumps| && Trace(dumps, n).Some? && X(x) in Before(dumps, n)
  {
    HexVal(Before(dumps, n)[X(x)]) == Some(Replayed(Trace(dumps, n).value, x))
  }

  /** The text of register `x` changes at one of the dumps `from` to `n - 1`. */
  ghost predicate ChangesIn(dumps: seq<Dump>, from: nat, n: nat, x: nat)
    requires n <= |dumps|
  {
    exists k: nat :: from <= k < n && Differs(Before(dumps, k), dumps[k], x)
  }

  /**
   * Exactly what a gap costs. Dump `b - 1` leaves register `x` out, and the dumps from `b` on list it: replay
   * is right again if and only if its text has changed since dump `b`, or dump `b` happens to show the value
   * replayed before it.
   */
  lemma {:induction false} GapReplayVerdict(dumps: seq<Dump>, b: nat, n: nat, x: nat)
    requires 0 < b < n <= |dumps| && x < 32 && Trace(dumps, n).Some?
    requires X(x) !in dumps[b - 1] && forall k :: b <= k < n ==> X(x) in dumps[k]
    ensures Trace(dumps, b).Some?
    ensures ReplayRight(dumps, n, x) <==>
            ChangesIn(dumps, b + 1, n, x) || HexVal(dumps[b][X(x)]) == Some(Replayed(Trace(dumps, b).value, x))
    ensures !ChangesIn(dumps, b + 1, n, x) ==>
              && dumps[n - 1][X(x)] == dumps[b][X(x)]
              && Replayed(Trace(dumps, n).value, x) == Replayed(Trace(dumps, b).value, x)
  {
    ReplayStep(dumps, n - 1, x);
    if n == b + 1 {
      assert !Differs(Before(dumps, b), dumps[b], x);
    } else {
      GapReplayVerdict(dumps, b, n - 1, x);
      if Differs(Before(dumps, n - 1), dumps[n - 1], x) {
        assert ChangesIn(dumps, b + 1, n, x);
      } else {
        assert ChangesIn(dumps, b + 1, n, x) <==> ChangesIn(dumps, b + 1, n - 1, x);
      }
    }
  }

  /** A register that one dump leaves out loses the change the next dump shows. */
  lemma OmittedRegisterLost(pc: string)
    ensures var dumps: seq<Dump> := [map[PC := pc, X(1) := "5"], map[PC := pc], map[PC := pc, X(1) := "7"]];
            && Trace(dumps, 3).Some?
            && Replayed(Trace(dumps, 3).value, 1) == 5
            && HexVal(dumps[2][X(1)]) == Some(7)
  {
    var dumps: seq<Dump> := [map[PC := pc, X(1) := "5"], map[PC := pc], map[PC := pc, X(1) := "7"]];
    assert HexVal("5") == Some(5) && HexVal("7") == Some(7);
    OnlyRegisterOne(InitialState(), dumps[0], 32);
    OnlyRegisterOne(dumps[0], dumps[1], 32);
    OnlyRegisterOne(dumps[1], dumps[2], 32);
    var e := Entry("80000000", [(1, 5)]);
    assert Trace(dumps, 0) == Some([]);
    assert [] + [e] == [e];
    assert Trace(dumps, 1) == Some([e]);
    assert Trace(dumps, 2) == Some([e]);
    assert Trace(dumps, 3) == Some([e]);
    assert [e][..0] == [];
    assert AfterUpdates([(1, 5)], 1, 1, 0) == 5;
  }

  lemma {:induction false} OnlyRegisterOne(state: Dump, regs: Dump, n: nat)
    requires forall x: nat :: X(x) in regs ==> x == 1 && HexVal(regs[X(x)]).Some?
    ensures Updates(state, regs, n) ==
            Some(if n > 1 && Differs(state, regs, 1) then [(1, HexVal(regs[X(1)]).value)] else [])
  {
    if n == 0 {
    } else {
      OnlyRegisterOne(state, regs, n - 1);
      var x: nat := n - 1;
      if Differs(state, regs, x) {
        var one := (x, HexVal(regs[X(x)]).value);
        assert [] + [one] == [one];
      }
    }
  }
}
