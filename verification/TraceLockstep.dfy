/** What a verdict of the trace comparison means, and what it does not depend on. */
module TraceLockstep {
  import opened Hex
  import opened TraceCompare

  // ---------------------------------------------------------------- the verdict in closed form

  lemma {:induction false} MatchesAll(a: seq<Entry>, b: seq<Entry>, n: nat)
    requires n <= |a| && n <= |b|
    ensures Matches(a, b, n) == n <==> a[..n] == b[..n]
  {
    if n == 0 {
    } else {
      MatchesAll(a, b, n - 1);
      assert a[..n] == a[..n - 1] + [a[n - 1]] && b[..n] == b[..n - 1] + [b[n - 1]];
    }
  }

  lemma LeftPositive(t1: seq<Entry>, t2: seq<Entry>)
    requires |All(t1)| < |All(t2)|
    ensures Left(t1, t2) > 0
  {
  }

  /**
   * PASSED means: the changes of trace 2 are the first changes of trace 1, and either they are all of them or
   * trace 2 ends on a change, where the comparison stops without looking at the rest of trace 1.
   */
  lemma PassedIff(t1: seq<Entry>, t2: seq<Entry>)
    ensures Expected(t1, t2).Passed? <==> All(t2) <= All(t1) && (All(t1) == All(t2) || EndsChanging(t2))
    ensures Expected(t1, t2).Passed? ==> Expected(t1, t2) == Passed(|All(t2)|)
  {
    var a, b := All(t1), All(t2);
    var n := Min(|a|, |b|);
    MatchesAll(a, b, n);
    if |a| < |b| {
      LeftPositive(t1, t2);
    }
    if n == |b| {
      assert b[..n] == b;
      assert a[..n] == b <==> b <= a;
    }
  }

  /** The positions below `n` where the two lists of changes agree. */
  ghost function Agreeing(a: seq<Entry>, b: seq<Entry>, n: nat): set<nat>
    requires n <= |a| && n <= |b|
  {
    set k: nat | k < n && a[k] == b[k]
  }

  /** The positions below `n` where they do not. */
  ghost function Disagreeing(a: seq<Entry>, b: seq<Entry>, n: nat): set<nat>
    requires n <= |a| && n <= |b|
  {
    set k: nat | k < n && a[k] != b[k]
  }

  lemma {:induction false} MatchesAreAgreeing(a: seq<Entry>, b: seq<Entry>, n: nat)
    requires n <= |a| && n <= |b|
    ensures Matches(a, b, n) == |Agreeing(a, b, n)| && n - Matches(a, b, n) == |Disagreeing(a, b, n)|
  {
    if n == 0 {
      assert Agreeing(a, b, 0) == {} && Disagreeing(a, b, 0) == {};
    } else {
      MatchesAreAgreeing(a, b, n - 1);
      if a[n - 1] == b[n - 1] {
        assert Agreeing(a, b, n) == Agreeing(a, b, n - 1) + {n - 1};
        assert Disagreeing(a, b, n) == Disagreeing(a, b, n - 1);
      } else {
        assert Agreeing(a, b, n) == Agreeing(a, b, n - 1);
        assert Disagreeing(a, b, n) == Disagreeing(a, b, n - 1) + {n - 1};
      }
    }
  }

  /** Entry `p` of trace 2 is its first change with no counterpart in trace 1. */
  ghost predicate FirstUnmatched(t1: seq<Entry>, t2: seq<Entry>, p: nat) {
    p < |t2| && Changes(t2, p) && |Changing(t2, p)| == |All(t1)|
  }

  lemma LeftFromFirst(t1: seq<Entry>, t2: seq<Entry>, p: nat)
    requires FirstUnmatched(t1, t2, p)
    ensures |All(t1)| < |All(t2)| && Left(t1, t2) == |t2| - p
  {
    ChangingPrefix(t2, p + 1, |t2|);
    assert Positions(t2, p + 1)[|All(t1)|] == p;
  }

  /**
   * What the report counts: the places where the changes agree; against them the places where they do not, one
   * more where trace 2 runs out on an entry that changes nothing, and every entry of trace 2 from its first
   * change with no counterpart.
   */
  lemma ReportCounts(t1: seq<Entry>, t2: seq<Entry>, p: nat)
    requires |All(t1)| < |All(t2)| ==> FirstUnmatched(t1, t2, p)
    ensures var a, b := All(t1), All(t2);
            var n: nat := if |a| <= |b| then |a| else |b|;
            var v, extra := Expected(t1, t2), if |a| < |b| then |t2| - p else 0;
            var ranOut := if |b| < |a| && (t2 == [] || !Changes(t2, |t2| - 1)) then 1 else 0;
            && !v.Exited? && v.matched == |Agreeing(a, b, n)|
            && (if v.Failed? then v.mismatched else 0) == |Disagreeing(a, b, n)| + ranOut + extra
  {
    var a, b := All(t1), All(t2);
    MatchesAreAgreeing(a, b, Min(|a|, |b|));
    if |a| < |b| {
      LeftFromFirst(t1, t2, p);
    }
  }

  /** A trace 2 that is cut off after a change passes, though trace 1 goes on changing registers. */
  lemma CutOffTracePasses()
    ensures var t1, t2 := [[Upd("ra", "1")], [Upd("sp", "2")]], [[Upd("ra", "1")]];
            All(t1) != All(t2) && Expected(t1, t2) == Passed(1)
  {
    var x, y: Entry := [Upd("ra", "1")], [Upd("sp", "2")];
    var t1, t2 := [x, y], [x];
    var m := map["ra" := "1"];
    assert HexVal("1") == Some(1) && HexVal("2") == Some(2);
    assert CheckFrom(x, 1, true, m) == Checked(true, m);
    assert Check(x, map[]) == Checked(true, m);
    assert Regs(t1, 0) == Regs(t2, 0) == map[];
    assert Regs(t1, 1) == m;
    assert CheckFrom(y, 1, true, m["sp" := "2"]) == Checked(true, m["sp" := "2"]);
    assert Check(y, m) == Checked(true, m["sp" := "2"]);
    assert Changing(t1, 0) == Changing(t2, 0) == [];
    assert Changing(t1, 1) == [x] && Changing(t2, 1) == [x] && Changing(t1, 2) == [x, y];
    PassedIff(t1, t2);
  }

  // ---------------------------------------------------------------- what one entry does

  /** What register `r` was last set to: by the updates before `i`, or in the map to begin with. */
  function Latest(us: Entry, i: nat, regs: map<string, string>, r: string): Option<string>
    requires i <= |us|
  {
    if i == 0 then (if r in regs then Some(regs[r]) else None)
    else if us[i - 1].Upd? && us[i - 1].rd == r then Some(us[i - 1].val)
    else Latest(us, i - 1, regs, r)
  }

  /** Element `i` is an update that can be taken: to a register in the map, or with a readable value. */
  ghost predicate Taken(us: Entry, i: nat, regs: map<string, string>)
    requires i < |us|
  {
    us[i].Upd? && (Latest(us, i, regs, us[i].rd).None? ==> HexVal(us[i].val).Some?)
  }

  /** The update brings another text, or sets a register not in the map to something other than zero. */
  ghost predicate Alters(us: Entry, i: nat, regs: map<string, string>)
    requires i < |us|
  {
    us[i].Upd? &&
    var was := Latest(us, i, regs, us[i].rd);
    if was.Some? then us[i].val != was.value else HexVal(us[i].val) != Some(0)
  }

  /** The map holds what the registers were last set to by the updates before `i`. */
  ghost predicate HoldsLatest(m: map<string, string>, us: Entry, i: nat, regs: map<string, string>)
    requires i <= |us|
  {
    forall r :: Latest(us, i, regs, r) == if r in m then Some(m[r]) else None
  }

  ghost predicate AltersBefore(us: Entry, n: nat, regs: map<string, string>)
    requires n <= |us|
  {
    exists i :: 0 <= i < n && Alters(us, i, regs)
  }

  lemma {:induction false} CheckReaches(us: Entry, n: nat, regs: map<string, string>) returns (m: map<string, string>)
    requires n <= |us| && forall i :: 0 <= i < n ==> Taken(us, i, regs)
    ensures HoldsLatest(m, us, n, regs)
    ensures Check(us, regs) == CheckFrom(us, n, AltersBefore(us, n, regs), m)
  {
    m := regs;
    for i := 0 to n
      invariant HoldsLatest(m, us, i, regs)
      invariant Check(us, regs) == CheckFrom(us, i, AltersBefore(us, i, regs), m)
    {
      assert Taken(us, i, regs);
      var rd, val := us[i].rd, us[i].val;
      assert Latest(us, i, regs, rd) == if rd in m then Some(m[rd]) else None;
      assert AltersBefore(us, i + 1, regs) <==> AltersBefore(us, i, regs) || Alters(us, i, regs);
      TakenUpdate(us, i, regs, m);
      m := m[rd := val];
    }
  }

  lemma TakenUpdate(us: Entry, i: nat, regs: map<string, string>, m: map<string, string>)
    requires i < |us| && us[i].Upd? && HoldsLatest(m, us, i, regs)
    ensures HoldsLatest(m[us[i].rd := us[i].val], us, i + 1, regs)
  {
    var after := m[us[i].rd := us[i].val];
    forall r
      ensures Latest(us, i + 1, regs, r) == if r in after then Some(after[r]) else None
    {
      assert Latest(us, i, regs, r) == if r in m then Some(m[r]) else None;
    }
  }

  /**
   * The elements of an entry are taken in order, up to the first that cannot be: an empty one ends the entry and
   * makes it unflagged whatever came before, any other is an exit. An entry taken to its end is flagged exactly
   * when some update alters what its register was last set to.
   */
  lemma EntryMeaning(us: Entry, n: nat, regs: map<string, string>)
    requires n <= |us| && (forall i :: 0 <= i < n ==> Taken(us, i, regs)) && (n < |us| ==> !Taken(us, n, regs))
    ensures Check(us, regs).Exit? <==> n < |us| && us[n] != Blank
    ensures Check(us, regs).Checked? ==>
              && HoldsLatest(Check(us, regs).regs, us, n, regs)
              && (Check(us, regs).changed <==> n == |us| && AltersBefore(us, n, regs))
  {
    var m := CheckReaches(us, n, regs);
    if n < |us| && us[n].Upd? {
      assert Latest(us, n, regs, us[n].rd).None?;
    }
  }

  // ---------------------------------------------------------------- register maps as functions

  /** The number a register holds; a register not yet written holds zero. */
  function ValueOf(regs: map<string, string>, r: string): nat {
    if r in regs && HexVal(regs[r]).Some? then HexVal(regs[r]).value else 0
  }

  ghost predicate SameValues(m: map<string, string>, n: map<string, string>) {
    forall r :: ValueOf(m, r) == ValueOf(n, r)
  }

  /** Every value is written in one way only. */
  ghost predicate OneSpelling(texts: set<string>) {
    && (forall v :: v in texts ==> HexVal(v).Some?)
    && (forall v, w :: v in texts && w in texts && HexVal(v) == HexVal(w) ==> v == w)
  }

  /** A readable entry: no update at all, or updates only, with values spelled as in `texts`. */
  ghost predicate PlainEntry(us: Entry, texts: set<string>) {
    us == [Blank] || forall i :: 0 <= i < |us| ==> us[i].Upd? && us[i].val in texts
  }

  ghost predicate PlainTrace(t: seq<Entry>, texts: set<string>) {
    forall i :: 0 <= i < |t| ==> PlainEntry(t[i], texts)
  }

  ghost predicate SpelledMap(m: map<string, string>, texts: set<string>) {
    forall r :: r in m ==> m[r] in texts
  }

  lemma UpdateSame(m: map<string, string>, n: map<string, string>, rd: string, val: string)
    requires SameValues(m, n)
    ensures SameValues(m[rd := val], n[rd := val])
  {
    var m', n' := m[rd := val], n[rd := val];
    forall r
      ensures ValueOf(m', r) == ValueOf(n', r)
    {
      assert ValueOf(m, r) == ValueOf(n, r);
    }
  }

  /** One readable update. */
  lemma CheckStep(us: Entry, i: nat, changed: bool, m: map<string, string>, texts: set<string>)
    requires OneSpelling(texts) && PlainEntry(us, texts) && SpelledMap(m, texts) && i < |us| && us[i].Upd?
    ensures us[i].val in texts && SpelledMap(m[us[i].rd := us[i].val], texts)
    ensures var rd, val := us[i].rd, us[i].val;
            CheckFrom(us, i, changed, m) ==
            CheckFrom(us, i + 1, changed || HexVal(val).value != ValueOf(m, rd), m[rd := val])
  {
    var rd, val := us[i].rd, us[i].val;
    assert HexVal(val).Some?;
    if rd in m {
      assert m[rd] in texts;
    }
  }

  /** Entries act on the values: equal values before give equal flags and equal values after. */
  lemma {:induction false} CheckSame(us: Entry, i: nat, changed: bool, m: map<string, string>, n: map<string, string>,
                                     texts: set<string>)
    requires OneSpelling(texts) && PlainEntry(us, texts) && SpelledMap(m, texts) && SpelledMap(n, texts)
    requires SameValues(m, n) && i <= |us|
    ensures var c, d := CheckFrom(us, i, changed, m), CheckFrom(us, i, changed, n);
            && c.Checked? && d.Checked? && c.changed == d.changed && SameValues(c.regs, d.regs)
            && SpelledMap(c.regs, texts) && SpelledMap(d.regs, texts)
    decreases |us| - i
  {
    if i < |us| && us[i].Upd? {
      var rd, val := us[i].rd, us[i].val;
      assert ValueOf(m, rd) == ValueOf(n, rd);
      CheckStep(us, i, changed, m, texts);
      CheckStep(us, i, changed, n, texts);
      UpdateSame(m, n, rd, val);
      CheckSame(us, i + 1, changed || HexVal(val).value != ValueOf(m, rd), m[rd := val], n[rd := val], texts);
    }
  }

  /** An entry that is not flagged leaves every value as it was. */
  lemma {:induction false} UnflaggedKeeps(us: Entry, i: nat, changed: bool, m: map<string, string>, texts: set<string>)
    requires OneSpelling(texts) && PlainEntry(us, texts) && SpelledMap(m, texts) && i <= |us|
    ensures var c := CheckFrom(us, i, changed, m);
            c.Checked? && (us != [Blank] && !c.changed ==> !changed) && (!c.changed ==> SameValues(c.regs, m))
    decreases |us| - i
  {
    if i < |us| && us[i].Upd? {
      var rd, val := us[i].rd, us[i].val;
      CheckStep(us, i, changed, m, texts);
      UnflaggedKeeps(us, i + 1, changed || HexVal(val).value != ValueOf(m, rd), m[rd := val], texts);
      var c := CheckFrom(us, i, changed, m);
      if !c.changed {
        assert us != [Blank];
        forall r
          ensures ValueOf(c.regs, r) == ValueOf(m, r)
        {
          assert ValueOf(c.regs, r) == ValueOf(m[rd := val], r);
        }
      }
    }
  }

  lemma {:induction false} RegsSpelled(t: seq<Entry>, n: nat, texts: set<string>)
    requires OneSpelling(texts) && PlainTrace(t, texts) && n <= |t|
    ensures SpelledMap(Regs(t, n), texts)
  {
    if n == 0 {
    } else {
      RegsSpelled(t, n - 1, texts);
      CheckSame(t[n - 1], 0, false, Regs(t, n - 1), Regs(t, n - 1), texts);
    }
  }

  // ---------------------------------------------------------------- lockstep

  /** The register map after a list of changes only. */
  function Applied(c: seq<Entry>): map<string, string> {
    if c == [] then map[]
    else
      var r := Check(c[|c| - 1], Applied(c[..|c| - 1]));
      if r.Checked? then r.regs else Applied(c[..|c| - 1])
  }

  lemma {:induction false} RegsFollowChanges(t: seq<Entry>, n: nat, texts: set<string>)
    requires OneSpelling(texts) && PlainTrace(t, texts) && n <= |t|
    ensures SameValues(Regs(t, n), Applied(Changing(t, n))) && SpelledMap(Applied(Changing(t, n)), texts)
  {
    if n == 0 {
    } else {
      RegsFollowChanges(t, n - 1, texts);
      RegsSpelled(t, n - 1, texts);
      var us, m, c := t[n - 1], Regs(t, n - 1), Changing(t, n - 1);
      CheckSame(us, 0, false, m, Applied(c), texts);
      if Changes(t, n - 1) {
        assert (c + [us])[..|c|] == c;
      } else {
        UnflaggedKeeps(us, 0, false, m, texts);
        assert Changing(t, n) == c;
        forall r
          ensures ValueOf(Regs(t, n), r) == ValueOf(Applied(c), r)
        {
          assert ValueOf(Regs(t, n), r) == ValueOf(m, r);
        }
      }
    }
  }

  /** As long as the changes have agreed, the two register maps hold the same values. */
  lemma Lockstep(t1: seq<Entry>, i: nat, t2: seq<Entry>, j: nat, texts: set<string>)
    requires OneSpelling(texts) && PlainTrace(t1, texts) && PlainTrace(t2, texts) && i <= |t1| && j <= |t2|
    requires Changing(t1, i) == Changing(t2, j)
    ensures SameValues(Regs(t1, i), Regs(t2, j))
  {
    RegsFollowChanges(t1, i, texts);
    RegsFollowChanges(t2, j, texts);
    forall r
      ensures ValueOf(Regs(t1, i), r) == ValueOf(Regs(t2, j), r)
    {
      assert ValueOf(Regs(t1, i), r) == ValueOf(Applied(Changing(t1, i)), r);
    }
  }

  // ---------------------------------------------------------------- stuttering

  function Inserted(t: seq<Entry>, p: nat, us: Entry): seq<Entry>
    requires p <= |t|
  {
    t[..p] + [us] + t[p..]
  }

  lemma {:induction false} BeforeInsertion(t: seq<Entry>, p: nat, us: Entry, n: nat)
    requires n <= p <= |t|
    ensures Regs(Inserted(t, p, us), n) == Regs(t, n) && Changing(Inserted(t, p, us), n) == Changing(t, n)
  {
    if n == 0 {
    } else {
      BeforeInsertion(t, p, us, n - 1);
      assert Inserted(t, p, us)[n - 1] == t[n - 1];
    }
  }

  /** The inserted entry only rewrites values the registers hold. */
  ghost predicate Rewrites(t: seq<Entry>, p: nat, us: Entry, texts: set<string>) {
    && OneSpelling(texts) && PlainTrace(t, texts) && PlainEntry(us, texts) && p <= |t|
    && var c := Check(us, Regs(t, p)); c.Checked? && !c.changed
  }

  lemma AtInsertion(t: seq<Entry>, p: nat, us: Entry, texts: set<string>)
    requires Rewrites(t, p, us, texts)
    ensures var t' := Inserted(t, p, us);
            && SameValues(Regs(t', p + 1), Regs(t, p)) && SpelledMap(Regs(t', p + 1), texts)
            && Changing(t', p + 1) == Changing(t, p)
  {
    var t' := Inserted(t, p, us);
    RegsSpelled(t, p, texts);
    BeforeInsertion(t, p, us, p);
    assert t'[p] == us;
    UnflaggedKeeps(us, 0, false, Regs(t, p), texts);
    CheckSame(us, 0, false, Regs(t, p), Regs(t, p), texts);
    NothingChanges(t', p, p + 1);
  }

  /** From equal values, the same entry is flagged alike and leaves equal values. */
  lemma SameStep(t: seq<Entry>, m: nat, t': seq<Entry>, n: nat, texts: set<string>)
    requires OneSpelling(texts) && m < |t| && n < |t'| && t[m] == t'[n] && PlainEntry(t[m], texts)
    requires SameValues(Regs(t', n), Regs(t, m)) && SpelledMap(Regs(t', n), texts) && SpelledMap(Regs(t, m), texts)
    ensures SameValues(Regs(t', n + 1), Regs(t, m + 1)) && SpelledMap(Regs(t', n + 1), texts)
    ensures Changes(t', n) == Changes(t, m)
    ensures Changing(t', n) == Changing(t, m) ==> Changing(t', n + 1) == Changing(t, m + 1)
  {
    CheckSame(t[m], 0, false, Regs(t', n), Regs(t, m), texts);
  }

  /** Trace `t'` stands at `n + 1` as `t` does at `n`. */
  ghost predicate StandsAs(t': seq<Entry>, t: seq<Entry>, n: nat, texts: set<string>)
    requires n <= |t| && n + 1 <= |t'|
  {
    && SameValues(Regs(t', n + 1), Regs(t, n)) && SpelledMap(Regs(t', n + 1), texts)
    && Changing(t', n + 1) == Changing(t, n)
  }

  lemma {:induction false} AfterInsertion(t: seq<Entry>, p: nat, us: Entry, texts: set<string>, n: nat)
    requires Rewrites(t, p, us, texts) && p <= n <= |t|
    ensures StandsAs(Inserted(t, p, us), t, n, texts)
  {
    if n == p {
      AtInsertion(t, p, us, texts);
    } else {
      AfterInsertion(t, p, us, texts, n - 1);
      InsertedStep(t, p, us, texts, n);
    }
  }

  lemma InsertedStep(t: seq<Entry>, p: nat, us: Entry, texts: set<string>, n: nat)
    requires Rewrites(t, p, us, texts) && p < n <= |t| && StandsAs(Inserted(t, p, us), t, n - 1, texts)
    ensures StandsAs(Inserted(t, p, us), t, n, texts)
    ensures Changes(Inserted(t, p, us), n) == Changes(t, n - 1)
  {
    RegsSpelled(t, n - 1, texts);
    assert Inserted(t, p, us)[n] == t[n - 1];
    SameStep(t, n - 1, Inserted(t, p, us), n, texts);
  }

  lemma InsertedChanging(t: seq<Entry>, p: nat, us: Entry, texts: set<string>)
    requires Rewrites(t, p, us, texts)
    ensures |Inserted(t, p, us)| == |t| + 1
    ensures Changing(Inserted(t, p, us), |t| + 1) == Changing(t, |t|)
    ensures p < |t| ==> Changes(Inserted(t, p, us), |t|) == Changes(t, |t| - 1)
  {
    if p < |t| {
      AfterInsertion(t, p, us, texts, |t| - 1);
      InsertedStep(t, p, us, texts, |t|);
    } else {
      AtInsertion(t, p, us, texts);
    }
  }

  lemma InsertionKept(t: seq<Entry>, p: nat, us: Entry, texts: set<string>)
    requires Rewrites(t, p, us, texts)
    ensures All(Inserted(t, p, us)) == All(t)
  {
    InsertedChanging(t, p, us, texts);
  }

  lemma EndAt(t: seq<Entry>, n: nat)
    requires |t| == n + 1
    ensures EndsChanging(t) == Changes(t, n)
  {
  }

  lemma EndKept(t: seq<Entry>, p: nat, us: Entry, texts: set<string>)
    requires Rewrites(t, p, us, texts) && p < |t|
    ensures EndsChanging(Inserted(t, p, us)) == EndsChanging(t)
  {
    InsertedChanging(t, p, us, texts);
    EndAt(Inserted(t, p, us), |t|);
    EndAt(t, |t| - 1);
  }

  lemma EndQuiet(t: seq<Entry>, us: Entry, texts: set<string>)
    requires Rewrites(t, |t|, us, texts)
    ensures !EndsChanging(Inserted(t, |t|, us))
  {
    var p, t' := |t|, Inserted(t, |t|, us);
    BeforeInsertion(t, p, us, p);
    assert t'[p] == us && CheckAt(t', p) == Check(us, Regs(t, p));
  }

  /** Entries that change nothing may be added anywhere to trace 1 without touching the verdict or its counts. */
  lemma StutterTrace1(t1: seq<Entry>, t2: seq<Entry>, p: nat, us: Entry, texts: set<string>)
    requires Rewrites(t1, p, us, texts)
    ensures Expected(Inserted(t1, p, us), t2) == Expected(t1, t2)
  {
    InsertionKept(t1, p, us, texts);
  }

  /** And anywhere but at the end of trace 2. */
  lemma StutterTrace2(t1: seq<Entry>, t2: seq<Entry>, p: nat, us: Entry, texts: set<string>)
    requires Rewrites(t2, p, us, texts) && p < |t2|
    ensures Expected(t1, Inserted(t2, p, us)).Passed? == Expected(t1, t2).Passed?
    ensures Expected(t1, Inserted(t2, p, us)).matched == Expected(t1, t2).matched
  {
    InsertionKept(t2, p, us, texts);
    EndKept(t2, p, us, texts);
    PassedIff(t1, t2);
    PassedIff(t1, Inserted(t2, p, us));
  }

  /** At the end of trace 2 such an entry turns a pass by early stop into a failure. */
  lemma StutterAtEnd(t1: seq<Entry>, t2: seq<Entry>, us: Entry, texts: set<string>)
    requires Rewrites(t2, |t2|, us, texts)
    ensures Expected(t1, t2 + [us]).Passed? <==> All(t1) == All(t2)
  {
    assert Inserted(t2, |t2|, us) == t2 + [us];
    InsertionKept(t2, |t2|, us, texts);
    EndQuiet(t2, us, texts);
    PassedIff(t1, t2 + [us]);
  }
}
