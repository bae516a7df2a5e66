/** The in-order comparison of two instruction traces (scripts/instr_trace_compare.py). */
module TraceCompare {
  import opened Hex

  /** One element of a GPR update list: empty, split into a register and a value, or not of that form. */
  datatype Update = Blank | Upd(rd: string, val: string) | Malformed(text: string)

  type Entry = seq<Update>

  // ---------------------------------------------------------------- one entry

  /** What `check_update_gpr` does: the state-change flag and the new register map, or an exit. */
  datatype Checked = Exit | Checked(changed: bool, regs: map<string, string>)

  /** The loop from element `i`, with what has been seen so far. */
  function CheckFrom(us: Entry, i: nat, changed: bool, regs: map<string, string>): Checked
    decreases |us| - i
  {
    if i >= |us| then Checked(changed, regs)
    else match us[i]
      case Blank => Checked(false, regs)
      case Malformed(_) => Exit
      case Upd(rd, val) =>
        if rd in regs then CheckFrom(us, i + 1, changed || val != regs[rd], regs[rd := val])
        else
          var v := HexVal(val);
          if v.None? then Exit else CheckFrom(us, i + 1, changed || v.value != 0, regs[rd := val])
  }

  function Check(us: Entry, regs: map<string, string>): Checked {
    CheckFrom(us, 0, false, regs)
  }

  /** A register map that `check_update_gpr` updates in place. */
  class RegFile {
    var vals: map<string, string>

    constructor ()
      ensures vals == map[]
    {
      vals := map[];
    }

    method CheckUpdateGpr(us: Entry) returns (ok: bool, changed: bool)
      modifies this
      ensures ok <==> Check(us, old(vals)).Checked?
      ensures ok ==> Check(us, old(vals)) == Checked(changed, vals)
    {
      ok, changed := true, false;
      for i := 0 to |us|
        invariant ok && Check(us, old(vals)) == CheckFrom(us, i, changed, vals)
      {
        match us[i] {
          case Blank =>
            changed := false;
            return;
          case Malformed(_) =>
            ok := false;
            return;
          case Upd(rd, val) =>
            if rd in vals {
              if val != vals[rd] {
                changed := true;
              }
            } else {
              var v := HexVal(val);
              if v.None? {
                ok := false;
                return;
              }
              if v.value != 0 {
                changed := true;
              }
            }
            vals := vals[rd := val];
        }
      }
    }
  }

  // ---------------------------------------------------------------- one trace

  /** The register map after `n` entries; an entry that exits leaves it as it was. */
  function Regs(t: seq<Entry>, n: nat): map<string, string>
    requires n <= |t|
  {
    if n == 0 then map[]
    else
      var c := Check(t[n - 1], Regs(t, n - 1));
      if c.Checked? then c.regs else Regs(t, n - 1)
  }

  function CheckAt(t: seq<Entry>, i: nat): Checked
    requires i < |t|
  {
    Check(t[i], Regs(t, i))
  }

  /** Entry `i` changes the register state. */
  predicate Changes(t: seq<Entry>, i: nat)
    requires i < |t|
  {
    var c := CheckAt(t, i);
    c.Checked? && c.changed
  }

  /** The positions of the state-changing entries among the first `n`. */
  function Positions(t: seq<Entry>, n: nat): (ps: seq<nat>)
    requires n <= |t|
    ensures forall k :: 0 <= k < |ps| ==> ps[k] < n
  {
    if n == 0 then [] else Positions(t, n - 1) + (if Changes(t, n - 1) then [n - 1] else [])
  }

  /** The update lists of the state-changing entries among the first `n`. */
  function Changing(t: seq<Entry>, n: nat): (c: seq<Entry>)
    requires n <= |t|
    ensures |c| == |Positions(t, n)|
  {
    if n == 0 then [] else Changing(t, n - 1) + (if Changes(t, n - 1) then [t[n - 1]] else [])
  }

  /** None of the first `n` entries is an exit. */
  ghost predicate Readable(t: seq<Entry>, n: nat)
    requires n <= |t|
  {
    forall i :: 0 <= i < n ==> CheckAt(t, i).Checked?
  }

  lemma {:induction false} ChangingPrefix(t: seq<Entry>, m: nat, n: nat)
    requires m <= n <= |t|
    ensures Changing(t, m) <= Changing(t, n) && Positions(t, m) <= Positions(t, n)
  {
    if m == n {
    } else {
      ChangingPrefix(t, m, n - 1);
    }
  }

  lemma {:induction false} NothingChanges(t: seq<Entry>, m: nat, n: nat)
    requires m <= n <= |t| && forall i :: m <= i < n ==> !Changes(t, i)
    ensures Changing(t, n) == Changing(t, m) && Positions(t, n) == Positions(t, m)
  {
    if m == n {
    } else {
      NothingChanges(t, m, n - 1);
    }
  }

  // ---------------------------------------------------------------- the verdict

  datatype Verdict = Passed(matched: nat) | Failed(matched: nat, mismatched: nat) | Exited

  /** How many of the first `n` positions hold equal update lists. */
  function Matches(a: seq<Entry>, b: seq<Entry>, n: nat): (r: nat)
    requires n <= |a| && n <= |b|
    ensures r <= n
  {
    if n == 0 then 0 else Matches(a, b, n - 1) + (if a[n - 1] == b[n - 1] then 1 else 0)
  }

  function Min(a: nat, b: nat): nat {
    if a <= b then a else b
  }

  predicate EndsChanging(t: seq<Entry>) {
    t != [] && Changes(t, |t| - 1)
  }

  function All(t: seq<Entry>): seq<Entry> {
    Changing(t, |t|)
  }

  /** How many pairs of changes agree. */
  function MatchedOf(a: seq<Entry>, b: seq<Entry>): nat {
    Matches(a, b, Min(|a|, |b|))
  }

  /** The pairs that differ, one if trace 2 runs out before its last entry compares, and what is left of trace 2. */
  function MismatchedOf(a: seq<Entry>, b: seq<Entry>, endsChanging: bool, left: nat): nat {
    (Min(|a|, |b|) - MatchedOf(a, b)) +
    (if |b| < |a| && !endsChanging then 1 else 0) +
    (if |a| < |b| then left else 0)
  }

  /** The entries of trace 2 from its first change with no counterpart in trace 1. */
  function Left(t1: seq<Entry>, t2: seq<Entry>): nat {
    var n := |All(t1)|;
    if n < |All(t2)| then |t2| - Positions(t2, |t2|)[n] else 0
  }

  function MatchedCount(t1: seq<Entry>, t2: seq<Entry>): nat {
    MatchedOf(All(t1), All(t2))
  }

  function MismatchedCount(t1: seq<Entry>, t2: seq<Entry>): nat {
    MismatchedOf(All(t1), All(t2), EndsChanging(t2), Left(t1, t2))
  }

  /**
   * How far trace 1 is read: to the change set against the last entry of trace 2, to its first change with no
   * counterpart, or to its end.
   */
  function Read1(t1: seq<Entry>, t2: seq<Entry>): (n: nat)
    ensures n <= |t1|
  {
    var ps, m := Positions(t1, |t1|), |All(t2)|;
    if m <= |ps| && EndsChanging(t2) && m > 0 then ps[m - 1] + 1
    else if m < |ps| then ps[m] + 1
    else |t1|
  }

  /** How far trace 2 is read: to its first change with no counterpart, or to its end. */
  function Read2(t1: seq<Entry>, t2: seq<Entry>): (n: nat)
    ensures n <= |t2|
  {
    var ps, m := Positions(t2, |t2|), |All(t1)|;
    if m < |ps| then ps[m] + 1 else |t2|
  }

  /** An entry that is read cannot be taken. */
  ghost predicate Exits(t1: seq<Entry>, t2: seq<Entry>) {
    !Readable(t1, Read1(t1, t2)) || !Readable(t2, Read2(t1, t2))
  }

  lemma PositionAt(t: seq<Entry>, i: nat, m: nat)
    requires i <= |t| && |Changing(t, i)| <= m < |All(t)|
    ensures i <= Positions(t, |t|)[m]
    ensures i < |t| && Changes(t, i) && m == |Changing(t, i)| ==> Positions(t, |t|)[m] == i
  {
    PositionAbove(t, i, |t|, m);
    if i < |t| && Changes(t, i) && m == |Changing(t, i)| {
      ChangingPrefix(t, i + 1, |t|);
      assert Positions(t, i + 1)[m] == i;
    }
  }

  lemma {:induction false} PositionAbove(t: seq<Entry>, i: nat, n: nat, m: nat)
    requires i <= n <= |t| && |Changing(t, i)| <= m < |Changing(t, n)|
    ensures i <= Positions(t, n)[m]
  {
    if m < |Positions(t, n - 1)| {
      PositionAbove(t, i, n - 1, m);
    }
  }

  function Report(matched: nat, mismatched: nat): Verdict {
    if mismatched == 0 then Passed(matched) else Failed(matched, mismatched)
  }

  function Expected(t1: seq<Entry>, t2: seq<Entry>): Verdict {
    Report(MatchedCount(t1, t2), MismatchedCount(t1, t2))
  }

  method SameUpdates(a: Entry, b: Entry) returns (same: bool)
    ensures same <==> a == b
  {
    if |a| != |b| {
      return false;
    }
    for i := 0 to |a|
      invariant forall j :: 0 <= j < i ==> a[j] == b[j]
    {
      if a[i] != b[i] {
        return false;
      }
    }
    return true;
  }

  /** What `Advance` has found, `j` being where it stopped. */
  ghost predicate Advanced(t: seq<Entry>, from: nat, changed: bool, j: nat) {
    && from <= j <= |t|
    && (changed ==> from < j && Changes(t, j - 1) && forall k :: from <= k < j - 1 ==> !Changes(t, k))
    && (!changed ==> j == |t| && forall k :: from <= k < j ==> !Changes(t, k))
  }

  /** Moves trace 2 on, from `from`, until an entry changes the registers or the trace ends. */
  method Advance(t: seq<Entry>, from: nat, gpr: RegFile) returns (ok: bool, changed: bool, next: nat)
    requires from <= |t| && gpr.vals == Regs(t, from)
    modifies gpr
    ensures !ok ==> from <= next < |t| && CheckAt(t, next).Exit? && forall i :: from <= i < next ==> !Changes(t, i)
    ensures ok ==> Advanced(t, from, changed, next) && gpr.vals == Regs(t, next)
    ensures ok ==> forall i :: from <= i < next ==> CheckAt(t, i).Checked?
  {
    ok, changed, next := true, false, from;
    while !changed && next < |t|
      invariant ok && from <= next <= |t| && gpr.vals == Regs(t, next)
      invariant forall i :: from <= i < next ==> CheckAt(t, i).Checked?
      invariant changed ==> from < next && Changes(t, next - 1) && forall i :: from <= i < next - 1 ==> !Changes(t, i)
      invariant !changed ==> forall i :: from <= i < next ==> !Changes(t, i)
      decreases |t| - next, !changed
    {
      ok, changed := gpr.CheckUpdateGpr(t[next]);
      if !ok {
        return;
      }
      next := next + 1;
    }
  }

  /** `n` pairs of changing entries have been compared: all of both prefixes, or one side has run out. */
  ghost predicate Counted(a: seq<Entry>, b: seq<Entry>, n: nat, matched: nat, mismatched: nat) {
    n <= |a| && n <= |b| && matched == Matches(a, b, n) && mismatched == n - matched
  }

  lemma {:induction false} MatchesStable(a: seq<Entry>, a': seq<Entry>, b: seq<Entry>, b': seq<Entry>, n: nat)
    requires n <= |a| && n <= |b| && a <= a' && b <= b'
    ensures Matches(a', b', n) == Matches(a, b, n)
  {
    if n == 0 {
    } else {
      MatchesStable(a, a', b, b', n - 1);
    }
  }

  /** One more pair: trace 1 has come to `i`, and trace 2 has moved from `from` to its next change just before `j`. */
  lemma PairCompared(t1: seq<Entry>, i: nat, t2: seq<Entry>, from: nat, j: nat, matched: nat, mismatched: nat)
    requires i < |t1| && Changes(t1, i) && from < j <= |t2| && Changes(t2, j - 1)
    requires forall k :: from <= k < j - 1 ==> !Changes(t2, k)
    requires |Changing(t1, i)| == |Changing(t2, from)|
    requires Counted(Changing(t1, i), Changing(t2, from), |Changing(t1, i)|, matched, mismatched)
    ensures |Changing(t1, i + 1)| == |Changing(t2, j)| == |Changing(t1, i)| + 1
    ensures var same := t1[i] == t2[j - 1];
            Counted(Changing(t1, i + 1), Changing(t2, j), |Changing(t1, i + 1)|,
                    if same then matched + 1 else matched, if same then mismatched else mismatched + 1)
  {
    NothingChanges(t2, from, j - 1);
    MatchesStable(Changing(t1, i), Changing(t1, i + 1), Changing(t2, from), Changing(t2, j), |Changing(t1, i)|);
  }

  lemma ShortVerdict(a: seq<Entry>, b: seq<Entry>, a': seq<Entry>, ends: bool, left: nat, matched: nat, mismatched: nat)
    requires a <= a' && |a| == |b| && Counted(a, b, |a|, matched, mismatched)
    requires ends || |a| < |a'|
    ensures MatchedOf(a', b) == matched
    ensures MismatchedOf(a', b, ends, left) == mismatched + (if ends then 0 else 1)
  {
    MatchesStable(a, a', b, b, |a|);
  }

  lemma NoMoreChanges(t: seq<Entry>, from: nat)
    requires from <= |t| && (from == |t| ==> t == []) && forall k :: from <= k < |t| ==> !Changes(t, k)
    ensures All(t) == Changing(t, from) && !EndsChanging(t)
  {
    NothingChanges(t, from, |t|);
  }

  lemma MoreChanges(t: seq<Entry>, i: nat)
    requires i < |t| && Changes(t, i)
    ensures Changing(t, i) <= All(t) && |Changing(t, i)| < |All(t)|
  {
    ChangingPrefix(t, i + 1, |t|);
    ChangingPrefix(t, i, |t|);
  }

  /** The verdict when trace 2 has run out first. */
  lemma RanOut(t1: seq<Entry>, i: nat, t2: seq<Entry>, from: nat, matched: nat, mismatched: nat)
    requires i < |t1| && Changes(t1, i) && from <= |t2|
    requires forall k :: from <= k < |t2| ==> !Changes(t2, k)
    requires |Changing(t1, i)| == |Changing(t2, from)| && (from == |t2| ==> t2 == [])
    requires Counted(Changing(t1, i), Changing(t2, from), |Changing(t1, i)|, matched, mismatched)
    ensures MatchedCount(t1, t2) == matched && MismatchedCount(t1, t2) == mismatched + 1
  {
    NoMoreChanges(t2, from);
    MoreChanges(t1, i);
    ShortVerdict(Changing(t1, i), All(t2), All(t1), EndsChanging(t2), Left(t1, t2), matched, mismatched);
  }

  /** The verdict when trace 2 ends on the change just compared. */
  lemma EndedTogether(t1: seq<Entry>, i: nat, t2: seq<Entry>, matched: nat, mismatched: nat)
    requires i <= |t1| && EndsChanging(t2) && |Changing(t1, i)| == |All(t2)|
    requires Counted(Changing(t1, i), All(t2), |All(t2)|, matched, mismatched)
    ensures MatchedCount(t1, t2) == matched && MismatchedCount(t1, t2) == mismatched
  {
    ChangingPrefix(t1, i, |t1|);
    ShortVerdict(Changing(t1, i), All(t2), All(t1), true, Left(t1, t2), matched, mismatched);
  }

  /** The verdict when trace 1 is at its end and trace 2 may have changes left. */
  lemma LeftOver(t1: seq<Entry>, t2: seq<Entry>, from: nat, changed: bool, next: nat, matched: nat, mismatched: nat)
    requires from <= next <= |t2| && |All(t1)| == |Changing(t2, from)|
    requires Counted(All(t1), Changing(t2, from), |All(t1)|, matched, mismatched)
    requires Advanced(t2, from, changed, next)
    ensures MatchedCount(t1, t2) == matched
    ensures MismatchedCount(t1, t2) == mismatched + (if changed then |t2| - (next - 1) else 0)
  {
    ChangingPrefix(t2, from, |t2|);
    MatchesStable(All(t1), All(t1), Changing(t2, from), All(t2), |All(t1)|);
    if changed {
      NothingChanges(t2, from, next - 1);
      ChangingPrefix(t2, next, |t2|);
      assert Positions(t2, next)[|All(t1)|] == next - 1;
    } else {
      NothingChanges(t2, from, |t2|);
    }
  }

  /** An exit that trace 2 comes to before its next change. */
  lemma Unreadable2(t1: seq<Entry>, t2: seq<Entry>, from: nat, next: nat)
    requires from <= next < |t2| && CheckAt(t2, next).Exit? && forall i :: from <= i < next ==> !Changes(t2, i)
    requires |Changing(t2, from)| <= |All(t1)|
    ensures Exits(t1, t2)
  {
    NothingChanges(t2, from, next);
    if |All(t1)| < |All(t2)| {
      PositionAt(t2, next, |All(t1)|);
    }
  }

  lemma LeftOverRead(t1: seq<Entry>, t2: seq<Entry>, from: nat, changed: bool, next: nat)
    requires from <= |t2| && |Changing(t2, from)| == |All(t1)| && Advanced(t2, from, changed, next)
    requires Readable(t1, |t1|) && Readable(t2, next)
    ensures !Exits(t1, t2)
  {
    if changed {
      NothingChanges(t2, from, next - 1);
      MoreChanges(t2, next - 1);
      PositionAt(t2, next - 1, |All(t1)|);
    }
  }

  lemma CountAtEnd(t: seq<Entry>, j: nat)
    requires j <= |t|
    ensures |Changing(t, j)| <= |All(t)|
    ensures j < |t| && EndsChanging(t) ==> |Changing(t, j)| < |All(t)|
  {
    ChangingPrefix(t, j, |t|);
    if j < |t| {
      ChangingPrefix(t, j, |t| - 1);
    }
  }

  /** Trace 1 is read on while neither trace has come to its end. */
  lemma ReadOn(t1: seq<Entry>, i: nat, t2: seq<Entry>, j: nat)
    requires i < |t1| && j <= |t2| && (j == |t2| ==> t2 == []) && |Changing(t1, i)| == |Changing(t2, j)|
    ensures i < Read1(t1, t2)
  {
    CountAtEnd(t2, j);
    ReadBeyond(t1, i, t2);
  }

  lemma ReadBeyond(t1: seq<Entry>, i: nat, t2: seq<Entry>)
    requires i < |t1| && |Changing(t1, i)| <= |All(t2)| && (EndsChanging(t2) ==> |Changing(t1, i)| < |All(t2)|)
    ensures i < Read1(t1, t2)
  {
    var m, c := |All(t2)|, |All(t1)|;
    if EndsChanging(t2) && m <= c {
      PositionAt(t1, i, m - 1);
    } else if m < c {
      PositionAt(t1, i, m);
    }
  }

  /** Trace 1 is read to its change at `i` when trace 2 ends there, on a change or short of one. */
  lemma ReadToChange(t1: seq<Entry>, i: nat, t2: seq<Entry>)
    requires i < |t1| && Changes(t1, i) && Readable(t1, i + 1) && Readable(t2, |t2|)
    requires |All(t2)| == |Changing(t1, i)| + (if EndsChanging(t2) then 1 else 0)
    ensures !Exits(t1, t2)
  {
    MoreChanges(t1, i);
    PositionAt(t1, i, |Changing(t1, i)|);
  }

  lemma RanOutRead(t1: seq<Entry>, i: nat, t2: seq<Entry>, from: nat)
    requires i < |t1| && Changes(t1, i) && Readable(t1, i + 1) && Readable(t2, |t2|)
    requires from <= |t2| && |Changing(t1, i)| == |Changing(t2, from)| && (from == |t2| ==> t2 == [])
    requires forall k :: from <= k < |t2| ==> !Changes(t2, k)
    ensures !Exits(t1, t2)
  {
    NoMoreChanges(t2, from);
    ReadToChange(t1, i, t2);
  }

  lemma EndedRead(t1: seq<Entry>, i: nat, t2: seq<Entry>, from: nat)
    requires i < |t1| && Changes(t1, i) && Readable(t1, i + 1) && Readable(t2, |t2|)
    requires from <= |t2| && |Changing(t1, i)| == |Changing(t2, from)| && Advanced(t2, from, true, |t2|)
    ensures !Exits(t1, t2)
  {
    NothingChanges(t2, from, |t2| - 1);
    ReadToChange(t1, i, t2);
  }

  lemma ShortOf(t: seq<Entry>, i: nat)
    requires i < |t|
    ensures |Changing(t, i)| <= |All(t)|
  {
    ChangingPrefix(t, i, |t|);
  }

  /** Looks for changes of trace 2 that trace 1 has nothing to set against. */
  method CheckLeftOver(t1: seq<Entry>, t2: seq<Entry>, j: nat, gpr2: RegFile, matched: nat, found: nat)
    returns (v: Verdict)
    requires j <= |t2| && gpr2.vals == Regs(t2, j) && |All(t1)| == |Changing(t2, j)|
    requires Counted(All(t1), Changing(t2, j), |All(t1)|, matched, found)
    requires Readable(t1, |t1|) && Readable(t2, j) && (j == |t2| ==> t2 == [])
    modifies gpr2
    ensures v.Exited? <==> Exits(t1, t2)
    ensures !v.Exited? ==> v == Expected(t1, t2)
  {
    var mismatched := found;
    var ok, changed, next := Advance(t2, j, gpr2);
    if !ok {
      Unreadable2(t1, t2, j, next);
      return Exited;
    }
    LeftOverRead(t1, t2, j, changed, next);
    LeftOver(t1, t2, j, changed, next, matched, mismatched);
    if changed {
      mismatched := mismatched + (|t2| - (next - 1));
    }
    return Report(matched, mismatched);
  }

  /** Both traces have come to the same number of changes, and the pairs so far are counted. */
  ghost predicate Aligned(t1: seq<Entry>, i: nat, t2: seq<Entry>, j: nat, matched: nat, mismatched: nat) {
    && i <= |t1| && j <= |t2| && (j == |t2| ==> t2 == [])
    && |Changing(t1, i)| == |Changing(t2, j)|
    && Counted(Changing(t1, i), Changing(t2, j), |Changing(t1, i)|, matched, mismatched)
  }

  lemma AlignedSkip(t1: seq<Entry>, i: nat, t2: seq<Entry>, j: nat, matched: nat, mismatched: nat)
    requires Aligned(t1, i, t2, j, matched, mismatched) && i < |t1| && !Changes(t1, i)
    ensures Aligned(t1, i + 1, t2, j, matched, mismatched)
  {
    NothingChanges(t1, i, i + 1);
  }

  /** Counts a pair of update lists. */
  method CountPair(a: Entry, b: Entry, found: nat, differing: nat) returns (matched: nat, mismatched: nat)
    ensures matched == if a == b then found + 1 else found
    ensures mismatched == if a == b then differing else differing + 1
  {
    matched, mismatched := found, differing;
    var same := SameUpdates(a, b);
    if same {
      matched := matched + 1;
    } else {
      mismatched := mismatched + 1;
    }
  }

  /** The comparison goes on, aligned at the next entries, or ends with what has been counted. */
  lemma PairDone(t1: seq<Entry>, i: nat, t2: seq<Entry>, from: nat, j: nat, found: nat, differing: nat)
    requires Aligned(t1, i, t2, from, found, differing) && i < |t1| && Changes(t1, i)
    requires Advanced(t2, from, true, j)
    ensures var same := t1[i] == t2[j - 1];
            var matched, mismatched := if same then found + 1 else found, if same then differing else differing + 1;
            if j == |t2| then Expected(t1, t2) == Report(matched, mismatched)
            else Aligned(t1, i + 1, t2, j, matched, mismatched)
  {
    var same := t1[i] == t2[j - 1];
    PairCompared(t1, i, t2, from, j, found, differing);
    if j == |t2| {
      EndedTogether(t1, i + 1, t2, if same then found + 1 else found, if same then differing else differing + 1);
    }
  }

  /** Sets the change of trace 1 at `i` against the next change of trace 2; the verdict, if that ends the comparison. */
  method ComparePair(t1: seq<Entry>, i: nat, t2: seq<Entry>, from: nat, gpr2: RegFile, found: nat, differing: nat)
    returns (stop: Option<Verdict>, j: nat, matched: nat, mismatched: nat)
    requires Aligned(t1, i, t2, from, found, differing) && i < |t1| && Changes(t1, i)
    requires gpr2.vals == Regs(t2, from) && Readable(t1, i + 1) && Readable(t2, from)
    modifies gpr2
    ensures stop == Some(Exited) ==> Exits(t1, t2)
    ensures stop.Some? && stop != Some(Exited) ==> !Exits(t1, t2) && stop.value == Expected(t1, t2)
    ensures stop.None? ==> Aligned(t1, i + 1, t2, j, matched, mismatched) && gpr2.vals == Regs(t2, j)
    ensures stop.None? ==> Readable(t2, j)
  {
    stop, matched, mismatched := None, found, differing;
    var ok, changed;
    ok, changed, j := Advance(t2, from, gpr2);
    if !ok {
      ShortOf(t1, i);
      Unreadable2(t1, t2, from, j);
      stop := Some(Exited);
    } else if !changed {
      RanOutRead(t1, i, t2, from);
      RanOut(t1, i, t2, from, matched, mismatched);
      mismatched := mismatched + 1;
      stop := Some(Report(matched, mismatched));
    } else {
      PairDone(t1, i, t2, from, j, found, differing);
      matched, mismatched := CountPair(t1[i], t2[j - 1], found, differing);
      if j == |t2| {
        EndedRead(t1, i, t2, from);
        stop := Some(Report(matched, mismatched));
      }
    }
  }

  /**
   * Compares the two traces change by change; stops at the first entry that cannot be read, and stops early
   * once a compared change is the last entry of trace 2.
   */
  method CompareTraces(t1: seq<Entry>, t2: seq<Entry>) returns (v: Verdict)
    ensures v.Exited? <==> Exits(t1, t2)
    ensures !v.Exited? ==> v == Expected(t1, t2)
  {
    var gpr1 := new RegFile();
    var gpr2 := new RegFile();
    var matched, mismatched, j := 0, 0, 0;
    for i := 0 to |t1|
      invariant gpr1 != gpr2 && fresh(gpr1) && fresh(gpr2)
      invariant Aligned(t1, i, t2, j, matched, mismatched)
      invariant gpr1.vals == Regs(t1, i) && gpr2.vals == Regs(t2, j)
      invariant Readable(t1, i) && Readable(t2, j)
    {
      if |t1[i]| == 0 {
        AlignedSkip(t1, i, t2, j, matched, mismatched);
        continue;
      }
      var ok, changed := gpr1.CheckUpdateGpr(t1[i]);
      if !ok {
        assert CheckAt(t1, i).Exit?;
        ReadOn(t1, i, t2, j);
        return Exited;
      }
      if !changed {
        AlignedSkip(t1, i, t2, j, matched, mismatched);
        continue;
      }
      var stop;
      stop, j, matched, mismatched := ComparePair(t1, i, t2, j, gpr2, matched, mismatched);
      if stop.Some? {
        return stop.value;
      }
    }
    v := CheckLeftOver(t1, t2, j, gpr2, matched, mismatched);
  }
}
