/**
 * The architecture's side: what a CSR holds, what the six CSR instructions do to it bit by bit
 * (section 9.1 of the RISC-V Unprivileged ISA 20191213), and a machine that runs the emitted test.
 */
module Zicsr {
  import opened Bits
  import opened CsrMap

  /** The bits of a value that a field occupies. */
  function Window(d: FieldDesc, xlen: nat, v: BitString): (w: BitString)
    requires d.lsb <= d.msb < xlen && |v| == xlen
    ensures |w| == Size(d)
  {
    v[xlen - 1 - d.msb..xlen - d.lsb]
  }

  /** Bit `bit` of the field that a write leaves: the written bit, or the legaliser's bit. */
  function FieldBit(d: FieldDesc, xlen: nat, v: BitString, prev: BitString, bit: nat): bool
    requires d.lsb <= d.msb < xlen && |v| == |prev| == xlen && Covers(d, bit)
  {
    if d.ftype == WARL && d.legalize.Some? then
      NatBit(d.legalize.value(ToNat(Window(d, xlen, v)), ToNat(Window(d, xlen, prev))), bit - d.lsb)
    else v[xlen - 1 - bit]
  }

  predicate Writable(d: FieldDesc) {
    d.ftype != WPRI && d.ftype != R
  }

  /** No writable field holds this bit. */
  ghost predicate Unowned(ds: seq<FieldDesc>, bit: int) {
    forall d :: d in ds && Writable(d) ==> !Covers(d, bit)
  }

  /** Every writable field takes its written bits, every other bit keeps its value. */
  ghost predicate IsArchWrite(ds: seq<FieldDesc>, xlen: nat, v: BitString, prev: BitString, r: BitString)
    requires ValidFields(ds, xlen) && |v| == |prev| == xlen
  {
    && |r| == xlen
    && (forall d, bit: nat :: d in ds && Writable(d) && Covers(d, bit) ==>
          r[xlen - 1 - bit] == FieldBit(d, xlen, v, prev, bit))
    && (forall bit: nat :: bit < xlen && Unowned(ds, bit) ==> r[xlen - 1 - bit] == prev[xlen - 1 - bit])
  }

  /** The value of one bit after a write: its owner's, looked up among the fields. */
  function ArchBit(ds: seq<FieldDesc>, xlen: nat, v: BitString, prev: BitString, bit: nat): bool
    requires ValidFields(ds, xlen) && |v| == |prev| == xlen && bit < xlen
  {
    if ds == [] then prev[xlen - 1 - bit]
    else
      var d := ds[|ds| - 1];
      if Writable(d) && Covers(d, bit) then FieldBit(d, xlen, v, prev, bit)
      else ArchBit(ds[..|ds| - 1], xlen, v, prev, bit)
  }

  function ArchWrite(ds: seq<FieldDesc>, xlen: nat, v: BitString, prev: BitString): (r: BitString)
    requires ValidFields(ds, xlen) && |v| == |prev| == xlen
    ensures |r| == xlen
  {
    seq(xlen, k requires 0 <= k < xlen => ArchBit(ds, xlen, v, prev, xlen - 1 - k))
  }

  lemma {:induction false} ArchBitOwner(ds: seq<FieldDesc>, xlen: nat, v: BitString, prev: BitString, d: FieldDesc,
                                        bit: nat)
    requires ValidFields(ds, xlen) && |v| == |prev| == xlen && DisjointFields(ds)
    requires d in ds && Writable(d) && Covers(d, bit)
    ensures ValidField(d, xlen) && ArchBit(ds, xlen, v, prev, bit) == FieldBit(d, xlen, v, prev, bit)
  {
    var i :| 0 <= i < |ds| && ds[i] == d;
    assert ValidField(ds[i], xlen);
    if i < |ds| - 1 {
      assert ds[..|ds| - 1][i] == d;
      ArchBitOwner(ds[..|ds| - 1], xlen, v, prev, d, bit);
    }
  }

  lemma {:induction false} ArchBitUnowned(ds: seq<FieldDesc>, xlen: nat, v: BitString, prev: BitString, bit: nat)
    requires ValidFields(ds, xlen) && |v| == |prev| == xlen && bit < xlen
    requires Unowned(ds, bit)
    ensures ArchBit(ds, xlen, v, prev, bit) == prev[xlen - 1 - bit]
  {
    if ds == [] {
    } else {
      ArchBitUnowned(ds[..|ds| - 1], xlen, v, prev, bit);
    }
  }

  lemma ArchWriteIsArchWrite(ds: seq<FieldDesc>, xlen: nat, v: BitString, prev: BitString)
    requires ValidFields(ds, xlen) && |v| == |prev| == xlen && DisjointFields(ds)
    ensures IsArchWrite(ds, xlen, v, prev, ArchWrite(ds, xlen, v, prev))
  {
    forall d, bit: nat | d in ds && Writable(d) && Covers(d, bit)
      ensures ValidField(d, xlen) && ArchWrite(ds, xlen, v, prev)[xlen - 1 - bit] == FieldBit(d, xlen, v, prev, bit)
    {
      ArchBitOwner(ds, xlen, v, prev, d, bit);
    }
    forall bit: nat | bit < xlen && Unowned(ds, bit)
      ensures ArchWrite(ds, xlen, v, prev)[xlen - 1 - bit] == prev[xlen - 1 - bit]
    {
      ArchBitUnowned(ds, xlen, v, prev, bit);
    }
  }

  /** There is only one such value, so the order in which the fields are listed cannot matter. */
  lemma ArchWriteUnique(ds: seq<FieldDesc>, es: seq<FieldDesc>, xlen: nat, v: BitString, prev: BitString,
                        r: BitString, s: BitString)
    requires ValidFields(ds, xlen) && ValidFields(es, xlen) && |v| == |prev| == xlen
    requires forall d :: d in ds <==> d in es
    requires IsArchWrite(ds, xlen, v, prev, r) && IsArchWrite(es, xlen, v, prev, s)
    ensures r == s
  {
    forall k: nat | k < xlen
      ensures r[k] == s[k]
    {
      var bit: nat := xlen - 1 - k;
      assert k == xlen - 1 - bit;
      if !Unowned(ds, bit) {
        var d :| d in ds && Writable(d) && Covers(d, bit);
        assert d in es;
      } else {
        assert Unowned(es, bit);
      }
    }
  }

  // ---------------------------------------------------------------- the machine

  datatype CsrFunct = RW | RS | RC

  datatype Asm =
    | Li(rd: nat, val: BitString)
    | CsrReg(funct: CsrFunct, rd: nat, addr: nat, rs1: nat)
    | CsrImm(funct: CsrFunct, rd: nat, addr: nat, imm: BitString)
    | BneFail(rs1: nat, rs2: nat)

  /** `spec` says which CSRs the hart implements and how each is laid out. */
  datatype Hart = Hart(xlen: nat, spec: map<nat, seq<FieldDesc>>)

  datatype State = State(regs: nat -> BitString, csrs: map<nat, BitString>)

  /** How a run ends: at `csr_pass`, at `csr_fail`, or with an illegal-instruction trap. */
  datatype Outcome = Passed(st: State) | Failed | Trapped

  ghost predicate ValidHart(h: Hart) {
    && h.xlen >= 5
    && forall a :: a in h.spec ==> ValidFields(h.spec[a], h.xlen)
  }

  ghost predicate ValidState(h: Hart, st: State) {
    && st.csrs.Keys == h.spec.Keys
    && (forall a :: a in st.csrs ==> |st.csrs[a]| == h.xlen)
    && forall r: nat {:trigger st.regs(r)} :: |st.regs(r)| == h.xlen
  }

  ghost predicate WellFormed(h: Hart, i: Asm) {
    (i.Li? ==> |i.val| == h.xlen) && (i.CsrImm? ==> |i.imm| == 5)
  }

  function SetReg(st: State, r: nat, v: BitString): State {
    if r == 0 then st else st.(regs := (x: nat) => if x == r then v else st.regs(x))
  }

  function GetReg(h: Hart, st: State, r: nat): BitString {
    if r == 0 then Zeros(h.xlen) else st.regs(r)
  }

  /** CSR addresses whose two top bits are set are read-only. */
  predicate ReadOnlyAddress(addr: nat) {
    (addr / 1024) % 4 == 3
  }

  /** Of the 4096 addresses, these are the ones from 0xc00 up. */
  lemma ReadOnlyAddresses(addr: nat)
    requires addr < 0x1000
    ensures ReadOnlyAddress(addr) <==> 0xc00 <= addr
  {
  }

  /** The value an instruction offers to the CSR: bits written, set, or cleared. */
  function Offered(f: CsrFunct, prev: BitString, operand: BitString): (r: BitString)
    requires |prev| == |operand|
    ensures |r| == |prev|
  {
    match f
    case RW => operand
    case RS => Or(prev, operand)
    case RC => And(prev, Not(operand))
  }

  /** One CSR instruction; `writes` is false for the set and clear forms with x0 or a zero immediate. */
  function CsrStep(h: Hart, st: State, f: CsrFunct, rd: nat, addr: nat, operand: BitString, writes: bool): Outcome
    requires ValidHart(h) && ValidState(h, st) && |operand| == h.xlen
  {
    if addr !in h.spec || (writes && ReadOnlyAddress(addr)) then Trapped
    else
      var was := st.csrs[addr];
      var now := if writes then ArchWrite(h.spec[addr], h.xlen, Offered(f, was, operand), was) else was;
      Passed(SetReg(st.(csrs := st.csrs[addr := now]), rd, was))
  }

  function Step(h: Hart, i: Asm, st: State): (o: Outcome)
    requires ValidHart(h) && ValidState(h, st) && WellFormed(h, i)
    ensures o.Passed? ==> ValidState(h, o.st)
  {
    match i
    case Li(rd, val) => Passed(SetReg(st, rd, val))
    case CsrReg(f, rd, addr, rs1) =>
      CsrStep(h, st, f, rd, addr, GetReg(h, st, rs1), f == RW || rs1 != 0)
    case CsrImm(f, rd, addr, imm) =>
      CsrStep(h, st, f, rd, addr, Zeros(h.xlen - 5) + imm, f == RW || imm != Zeros(5))
    case BneFail(rs1, rs2) =>
      if GetReg(h, st, rs1) != GetReg(h, st, rs2) then Failed else Passed(st)
  }

  ghost predicate WellFormedProgram(h: Hart, p: seq<Asm>) {
    forall i :: 0 <= i < |p| ==> WellFormed(h, p[i])
  }

  /** Runs straight-line code; a taken `bne` or a trap ends the run. */
  function Run(h: Hart, p: seq<Asm>, st: State): (o: Outcome)
    requires ValidHart(h) && ValidState(h, st) && WellFormedProgram(h, p)
    ensures o.Passed? ==> ValidState(h, o.st)
  {
    if p == [] then Passed(st)
    else
      var o := Step(h, p[0], st);
      if o.Passed? then Run(h, p[1..], o.st) else o
  }

  lemma {:induction false} RunConcat(h: Hart, p: seq<Asm>, q: seq<Asm>, st: State)
    requires ValidHart(h) && ValidState(h, st) && WellFormedProgram(h, p) && WellFormedProgram(h, q)
    ensures WellFormedProgram(h, p + q)
    ensures var o := Run(h, p, st);
            Run(h, p + q, st) == if o.Passed? then Run(h, q, o.st) else o
  {
    if p == [] {
      assert p + q == q;
    } else {
      assert (p + q)[1..] == p[1..] + q;
      var o := Step(h, p[0], st);
      if o.Passed? {
        RunConcat(h, p[1..], q, o.st);
      }
    }
  }
}
