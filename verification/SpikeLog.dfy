/** Reading a Spike log into trace entries (scripts/spike_log_to_trace_csv.py). */
module SpikeLog {
  import opened Hex

  /** A line matching the instruction pattern. */
  datatype Core = Core(addr: string, binary: string, instrStr: string)

  /** A line matching the commit pattern. */
  datatype Commit = Commit(reg: string, val: string, csr: Option<(string, string)>, mode: string)

  /** What the patterns find in one line; several may match. */
  datatype Line = Line(endsTrampoline: bool, core: Option<Core>, trap: bool, commit: Option<Commit>)

  datatype Entry = Entry(core: Core, gpr: seq<(string, string)>, csr: seq<(string, string)>, mode: string)

  /** An entry and whether its instruction trapped as illegal. */
  type Yield = (Entry, bool)

  function NewEntry(c: Core): Entry {
    Entry(c, [], [], "")
  }

  /** An entry with the effect of a commit line added. */
  function WithCommit(e: Entry, c: Commit): Entry {
    e.(gpr := e.gpr + [(c.reg, c.val)],
       csr := if c.csr.Some? then e.csr + [c.csr.value] else e.csr,
       mode := c.mode)
  }

  // ---------------------------------------------------------------- the log cut into blocks

  predicate IsCore(l: Line) {
    l.core.Some?
  }

  /** A line that says the instruction before it was illegal. */
  predicate IsTrap(l: Line) {
    !IsCore(l) && l.trap
  }

  predicate IsEcall(l: Line) {
    IsCore(l) && l.core.value.instrStr == "ecall"
  }

  /** The first position at or after `from` whose line is a core or trap line. */
  function StopFrom(body: seq<Line>, from: nat): (q: nat)
    requires from <= |body|
    ensures from <= q <= |body|
    ensures forall k :: from <= k < q ==> !IsCore(body[k]) && !IsTrap(body[k])
    ensures q < |body| ==> IsCore(body[q]) || IsTrap(body[q])
    decreases |body| - from
  {
    if from == |body| || IsCore(body[from]) || IsTrap(body[from]) then from else StopFrom(body, from + 1)
  }

  /** The entry of the core line at `p` with the commit lines after it and before `q`. */
  function EntryUpTo(body: seq<Line>, p: nat, q: nat): Entry
    requires p < q <= |body| && IsCore(body[p])
  {
    if q == p + 1 then NewEntry(body[p].core.value)
    else
      var e := EntryUpTo(body, p, q - 1);
      if body[q - 1].commit.Some? then WithCommit(e, body[q - 1].commit.value) else e
  }

  /** What is reported for the core line at `p`. */
  function YieldOf(body: seq<Line>, p: nat): Yield
    requires p < |body| && IsCore(body[p])
  {
    var q := StopFrom(body, p + 1);
    (EntryUpTo(body, p, q), q < |body| && IsTrap(body[q]))
  }

  /** One report for each core line among the first `n`, in order. */
  function Yields(body: seq<Line>, n: nat): seq<Yield>
    requires n <= |body|
  {
    if n == 0 then []
    else Yields(body, n - 1) + (if IsCore(body[n - 1]) then [YieldOf(body, n - 1)] else [])
  }

  /** The first position at or after `from` that satisfies the ecall test, if any. */
  function EcallFrom(lines: seq<Line>, from: nat): (q: nat)
    requires from <= |lines|
    ensures from <= q <= |lines|
    ensures forall k :: from <= k < q ==> !IsEcall(lines[k])
    ensures q < |lines| ==> IsEcall(lines[q])
    decreases |lines| - from
  {
    if from == |lines| || IsEcall(lines[from]) then from else EcallFrom(lines, from + 1)
  }

  /** Where the program's own instructions start: after the first line that ends the trampoline. */
  function BodyStart(lines: seq<Line>, from: nat): (q: nat)
    requires from <= |lines|
    ensures from <= q <= |lines|
    ensures forall k :: from <= k < q - 1 ==> !lines[k].endsTrampoline
    ensures q == from ==> from == |lines|
    ensures q < |lines| ==> lines[q - 1].endsTrampoline
    decreases |lines| - from
  {
    if from == |lines| then from
    else if lines[from].endsTrampoline then from + 1
    else BodyStart(lines, from + 1)
  }

  /** The part of the log that is reported on: after the trampoline, up to and including the first ecall. */
  function Body(lines: seq<Line>): seq<Line> {
    var start := BodyStart(lines, 0);
    var stop := EcallFrom(lines, start);
    if stop < |lines| then lines[start..stop + 1] else lines[start..]
  }

  // ---------------------------------------------------------------- what a block says

  /** Where the next instruction starts. */
  predicate IsBlockEnd(body: seq<Line>, p: nat, q: nat) {
    && p < q <= |body|
    && (forall k :: p < k < q ==> !IsCore(body[k]))
    && (q < |body| ==> IsCore(body[q]))
  }

  /** An instruction is flagged illegal exactly when a trap line occurs before the next instruction. */
  lemma IllegalIffTrapInBlock(body: seq<Line>, p: nat, q: nat)
    requires p < |body| && IsCore(body[p]) && IsBlockEnd(body, p, q)
    ensures YieldOf(body, p).1 <==> exists k :: p < k < q && IsTrap(body[k])
  {
    var s := StopFrom(body, p + 1);
    assert s <= q;
  }

  lemma {:induction false} YieldsStep(body: seq<Line>, m: nat, n: nat)
    requires m <= n <= |body| && forall k :: m <= k < n ==> !IsCore(body[k])
    ensures Yields(body, n) == Yields(body, m)
  {
    if m == n {
    } else {
      YieldsStep(body, m, n - 1);
    }
  }

  /** How many core lines there are among the first `n`. */
  function CoreCount(body: seq<Line>, n: nat): nat
    requires n <= |body|
  {
    if n == 0 then 0 else CoreCount(body, n - 1) + (if IsCore(body[n - 1]) then 1 else 0)
  }

  /**
   * One report per instruction, and the one for the core line at `p` is where the instruction is in the log's
   * order.
   */
  lemma {:induction false} OneYieldPerCore(body: seq<Line>, n: nat, p: nat)
    requires n <= |body| && p < n && IsCore(body[p])
    ensures |Yields(body, n)| == CoreCount(body, n) && CoreCount(body, p) < CoreCount(body, n)
    ensures Yields(body, n)[CoreCount(body, p)] == YieldOf(body, p)
  {
    YieldsCount(body, n);
    YieldsCount(body, p);
    if p < n - 1 {
      OneYieldPerCore(body, n - 1, p);
    }
  }

  lemma {:induction false} YieldsCount(body: seq<Line>, n: nat)
    requires n <= |body|
    ensures |Yields(body, n)| == CoreCount(body, n)
  {
    if n == 0 {
    } else {
      YieldsCount(body, n - 1);
    }
  }

  /** How many commit lines there are after `p` and before `q`. */
  function CommitCount(body: seq<Line>, p: nat, q: nat): nat
    requires p < q <= |body|
  {
    if q == p + 1 then 0 else CommitCount(body, p, q - 1) + (if body[q - 1].commit.Some? then 1 else 0)
  }

  predicate WritesCsr(l: Line) {
    l.commit.Some? && l.commit.value.csr.Some?
  }

  /** How many of them name a CSR. */
  function CsrCount(body: seq<Line>, p: nat, q: nat): nat
    requires p < q <= |body|
  {
    if q == p + 1 then 0 else CsrCount(body, p, q - 1) + (if WritesCsr(body[q - 1]) then 1 else 0)
  }

  lemma {:induction false} EntryLengths(body: seq<Line>, p: nat, q: nat)
    requires p < q <= |body| && IsCore(body[p])
    ensures var e := EntryUpTo(body, p, q);
            e.core == body[p].core.value && |e.gpr| == CommitCount(body, p, q) && |e.csr| == CsrCount(body, p, q)
  {
    if q == p + 1 {
    } else {
      EntryLengths(body, p, q - 1);
    }
  }

  lemma {:induction false} EntryHolds(body: seq<Line>, p: nat, q: nat, k: nat)
    requires p < k < q <= |body| && IsCore(body[p]) && body[k].commit.Some?
    ensures var e, c := EntryUpTo(body, p, q), body[k].commit.value;
            && CommitCount(body, p, k) < |e.gpr| && e.gpr[CommitCount(body, p, k)] == (c.reg, c.val)
            && (c.csr.Some? ==> CsrCount(body, p, k) < |e.csr| && e.csr[CsrCount(body, p, k)] == c.csr.value)
            && ((forall j :: k < j < q ==> body[j].commit.None?) ==> e.mode == c.mode)
  {
    if k == q - 1 {
      EntryLengths(body, p, k);
    } else {
      EntryHolds(body, p, q - 1, k);
    }
  }

  lemma {:induction false} NoCommitEntry(body: seq<Line>, p: nat, q: nat)
    requires p < q <= |body| && IsCore(body[p]) && forall j :: p < j < q ==> body[j].commit.None?
    ensures EntryUpTo(body, p, q).mode == ""
  {
    if q == p + 1 {
    } else {
      NoCommitEntry(body, p, q - 1);
    }
  }

  /** Where the report on the core line at `p` ends: at the next core or trap line, or with the body. */
  ghost predicate IsReportEnd(body: seq<Line>, p: nat, q: nat) {
    && p < q <= |body|
    && (forall k :: p < k < q ==> !IsCore(body[k]) && !IsTrap(body[k]))
    && (q < |body| ==> IsCore(body[q]) || IsTrap(body[q]))
  }

  /**
   * A report is on the instruction of its core line. It lists the register and value of each commit line up to
   * where it ends, in order and no others, and the CSR and value of each that has one; the mode is that of the
   * last, or empty.
   */
  lemma ReportContents(body: seq<Line>, p: nat, q: nat)
    requires p < |body| && IsCore(body[p]) && IsReportEnd(body, p, q)
    ensures var e := YieldOf(body, p).0;
            && e.core == body[p].core.value
            && |e.gpr| == CommitCount(body, p, q) && |e.csr| == CsrCount(body, p, q)
            && ((forall j :: p < j < q ==> body[j].commit.None?) ==> e.mode == "")
            && forall k: nat :: p < k < q && body[k].commit.Some? ==>
                 var c := body[k].commit.value;
                 && CommitCount(body, p, k) < |e.gpr| && e.gpr[CommitCount(body, p, k)] == (c.reg, c.val)
                 && (c.csr.Some? ==> CsrCount(body, p, k) < |e.csr| && e.csr[CsrCount(body, p, k)] == c.csr.value)
                 && ((forall j :: k < j < q ==> body[j].commit.None?) ==> e.mode == c.mode)
  {
    assert StopFrom(body, p + 1) == q;
    EntryLengths(body, p, q);
    if forall j :: p < j < q ==> body[j].commit.None? {
      NoCommitEntry(body, p, q);
    }
    forall k: nat | p < k < q && body[k].commit.Some?
      ensures var e, c := EntryUpTo(body, p, q), body[k].commit.value;
              && CommitCount(body, p, k) < |e.gpr| && e.gpr[CommitCount(body, p, k)] == (c.reg, c.val)
              && (c.csr.Some? ==> CsrCount(body, p, k) < |e.csr| && e.csr[CsrCount(body, p, k)] == c.csr.value)
              && ((forall j :: k < j < q ==> body[j].commit.None?) ==> e.mode == c.mode)
    {
      EntryHolds(body, p, q, k);
    }
  }

  /** The lines reported on are those after the first that ends the trampoline, as far as the first ecall after it. */
  lemma BodyCut(lines: seq<Line>, start: nat, stop: nat)
    requires 0 < start <= stop < |lines| && lines[start - 1].endsTrampoline && IsEcall(lines[stop])
    requires forall k :: 0 <= k < start - 1 ==> !lines[k].endsTrampoline
    requires forall k :: start <= k < stop ==> !IsEcall(lines[k])
    ensures Body(lines) == lines[start..stop + 1]
  {
    assert BodyStart(lines, 0) == start;
    assert EcallFrom(lines, start) == stop;
  }

  /** Without an ecall there, they are all the lines after it. */
  lemma BodyUncut(lines: seq<Line>, start: nat)
    requires 0 < start <= |lines| && lines[start - 1].endsTrampoline
    requires forall k :: 0 <= k < start - 1 ==> !lines[k].endsTrampoline
    requires forall k :: start <= k < |lines| ==> !IsEcall(lines[k])
    ensures Body(lines) == lines[start..]
  {
    assert BodyStart(lines, 0) == start;
  }

  // ---------------------------------------------------------------- the reader

  /** The reader's state before line `i` of the body, with `out` reported so far. */
  ghost predicate ReaderState(body: seq<Line>, i: nat, instr: Option<Entry>, p: nat, out: seq<Yield>) {
    && i <= |body|
    && match instr
       case None => out == Yields(body, i)
       case Some(e) =>
         && p < i && IsCore(body[p]) && StopFrom(body, p + 1) >= i
         && out == Yields(body, p) && e == EntryUpTo(body, p, i)
  }

  lemma CloseEntry(body: seq<Line>, i: nat, p: nat, e: Entry, out: seq<Yield>)
    requires ReaderState(body, i, Some(e), p, out)
    requires i == |body| || IsCore(body[i]) || IsTrap(body[i])
    ensures out + [(e, i < |body| && IsTrap(body[i]))] == Yields(body, i)
  {
    assert StopFrom(body, p + 1) == i;
    YieldsStep(body, p + 1, i);
  }

  lemma TakeCore(body: seq<Line>, i: nat, instr: Option<Entry>, p: nat, out: seq<Yield>)
    requires ReaderState(body, i, instr, p, out) && i < |body| && IsCore(body[i])
    ensures ReaderState(body, i + 1, Some(NewEntry(body[i].core.value)), i,
                        if instr.Some? then out + [(instr.value, false)] else out)
  {
    if instr.Some? {
      CloseEntry(body, i, p, instr.value, out);
    }
  }

  lemma TakeTrap(body: seq<Line>, i: nat, e: Entry, p: nat, out: seq<Yield>)
    requires ReaderState(body, i, Some(e), p, out) && i < |body| && IsTrap(body[i])
    ensures ReaderState(body, i + 1, None, p, out + [(e, true)])
  {
    CloseEntry(body, i, p, e, out);
    YieldsStep(body, i, i + 1);
  }

  lemma TakeOther(body: seq<Line>, i: nat, instr: Option<Entry>, p: nat, out: seq<Yield>)
    requires ReaderState(body, i, instr, p, out) && i < |body| && !IsCore(body[i]) && (instr.Some? ==> !IsTrap(body[i]))
    ensures var c := body[i].commit;
            ReaderState(body, i + 1,
                        if instr.Some? && c.Some? then Some(WithCommit(instr.value, c.value)) else instr, p, out)
  {
    YieldsStep(body, i, i + 1);
  }

  /** Line `i` of the log is line `at` of the body. */
  ghost predicate InBody(lines: seq<Line>, i: nat, at: nat) {
    BodyStart(lines, 0) <= i <= EcallFrom(lines, BodyStart(lines, 0)) && at == i - BodyStart(lines, 0)
  }

  lemma BodyLine(lines: seq<Line>, i: nat, at: nat)
    requires i < |lines| && InBody(lines, i, at)
    ensures at < |Body(lines)| && Body(lines)[at] == lines[i]
    ensures IsEcall(lines[i]) ==> |Body(lines)| == at + 1
    ensures !IsEcall(lines[i]) ==> InBody(lines, i + 1, at + 1)
  {
  }

  lemma BodyEnd(lines: seq<Line>, at: nat)
    requires InBody(lines, |lines|, at)
    ensures |Body(lines)| == at
  {
  }

  lemma BodyBegins(lines: seq<Line>, i: nat)
    requires i < |lines| && lines[i].endsTrampoline && BodyStart(lines, i) == BodyStart(lines, 0)
    ensures InBody(lines, i + 1, 0)
  {
  }

  /** What one line after the trampoline does. */
  method TakeLine(line: Line, instr: Option<Entry>, out: seq<Yield>, ghost body: seq<Line>, ghost i: nat, ghost p: nat)
    returns (instr': Option<Entry>, out': seq<Yield>, ghost p': nat)
    requires ReaderState(body, i, instr, p, out) && i < |body| && body[i] == line
    ensures ReaderState(body, i + 1, instr', p', out')
  {
    instr', out', p' := instr, out, p;
    if line.core.Some? {
      TakeCore(body, i, instr, p, out);
      if instr.Some? {
        out' := out + [(instr.value, false)];
      }
      instr', p' := Some(NewEntry(line.core.value)), i;
    } else if instr.Some? && line.trap {
      TakeTrap(body, i, instr.value, p, out);
      out' := out + [(instr.value, true)];
      instr' := None;
    } else {
      TakeOther(body, i, instr, p, out);
      if instr.Some? && line.commit.Some? {
        instr' := Some(WithCommit(instr.value, line.commit.value));
      }
    }
  }

  /** The state machine over the whole log. */
  method ReadSpikeTrace(lines: seq<Line>) returns (out: seq<Yield>)
    ensures out == Yields(Body(lines), |Body(lines)|)
  {
    out := [];
    var inTrampoline := true;
    var instr: Option<Entry> := None;
    ghost var body := Body(lines);
    ghost var p: nat := 0;
    ghost var at: nat := 0;
    var i := 0;
    while i < |lines|
      invariant 0 <= i <= |lines|
      invariant inTrampoline ==> BodyStart(lines, i) == BodyStart(lines, 0) && instr == None && out == [] && at == 0
      invariant !inTrampoline ==> InBody(lines, i, at)
      invariant ReaderState(body, at, instr, p, out)
      decreases |lines| - i
    {
      var line := lines[i];
      if inTrampoline {
        if line.endsTrampoline {
          inTrampoline := false;
          BodyBegins(lines, i);
        }
        i := i + 1;
        continue;
      }
      BodyLine(lines, i, at);
      instr, out, p := TakeLine(line, instr, out, body, at, p);
      at := at + 1;
      if line.core.Some? && line.core.value.instrStr == "ecall" {
        break;
      }
      i := i + 1;
    }
    if i == |lines| {
      BodyEnd(lines, at);
    }
    if instr.Some? {
      CloseEntry(body, |body|, p, instr.value, out);
      out := out + [(instr.value, false)];
    }
  }
}
