/** A hart that runs the trap-handling code, with wrapping XLEN-bit registers and a word memory. */
module TrapMachine {
  import opened Words
  import opened TrapCode

  datatype Hart = Hart(
    regs: seq<int>,
    mem: int -> int,
    mstatus: int,
    mscratch: int,
    mepc: int,
    mcause: int,
    mtval: int)

  predicate IsWord(cfg: Cfg, v: int) {
    0 <= v < Modulus(cfg.xlen)
  }

  ghost predicate ValidHart(cfg: Cfg, h: Hart) {
    && |h.regs| == 32 && h.regs[0] == 0
    && (forall i :: 0 <= i < 32 ==> IsWord(cfg, h.regs[i]))
    && IsWord(cfg, h.mscratch) && IsWord(cfg, h.mepc) && IsWord(cfg, h.mcause)
    && IsWord(cfg, h.mstatus) && IsWord(cfg, h.mtval)
    && forall a {:trigger h.mem(a)} :: IsWord(cfg, h.mem(a))
  }

  /** How straight-line code ends: past its last instruction, at a label, or back in the program. */
  datatype Outcome = Fell(st: Hart) | Jumped(target: Label, st: Hart) | Returned(st: Hart)

  function GetCsr(h: Hart, c: Csr): int {
    match c
    case MSTATUS => h.mstatus
    case MSCRATCH => h.mscratch
    case MEPC => h.mepc
    case MCAUSE => h.mcause
    case MTVAL => h.mtval
  }

  function SetCsr(h: Hart, c: Csr, v: int): Hart {
    match c
    case MSTATUS => h.(mstatus := v)
    case MSCRATCH => h.(mscratch := v)
    case MEPC => h.(mepc := v)
    case MCAUSE => h.(mcause := v)
    case MTVAL => h.(mtval := v)
  }

  function SetReg(h: Hart, r: nat, v: int): Hart
    requires |h.regs| == 32 && r < 32
  {
    if r == 0 then h else h.(regs := h.regs[r := v])
  }

  /** The registers an instruction names exist. */
  predicate Encodable(a: Asm) {
    match a
    case Csrrw(rd, _, rs1) => rd < 32 && rs1 < 32
    case Csrr(rd, _) => rd < 32
    case Csrw(_, rs1) => rs1 < 32
    case Add(rd, rs1, rs2) => rd < 32 && rs1 < 32 && rs2 < 32
    case Addi(rd, rs1, imm) => rd < 32 && rs1 < 32 && -2048 <= imm < 2048
    case Srli(rd, rs1, shift) => rd < 32 && rs1 < 32 && 0 <= shift
    case Li(rd, _) => rd < 32
    case Store(rs2, offset, rs1) => rs2 < 32 && rs1 < 32 && -2048 <= offset < 2048
    case Load(rd, offset, rs1) => rd < 32 && rs1 < 32 && -2048 <= offset < 2048
    case Beq(rs1, rs2, _) => rs1 < 32 && rs2 < 32
    case Bne(rs1, rs2, _) => rs1 < 32 && rs2 < 32
    case J(_) => true
    case Mret => true
  }

  function Half(n: nat, v: int): int {
    if n == 0 then v else Half(n - 1, v / 2)
  }

  function Write(mem: int -> int, a: int, v: int): int -> int {
    (x: int) => if x == a then v else mem(x)
  }

  function Step(cfg: Cfg, a: Asm, h: Hart): Outcome
    requires |h.regs| == 32 && Encodable(a)
  {
    var w := Modulus(cfg.xlen);
    match a
    case Csrrw(rd, c, rs1) => Fell(SetReg(SetCsr(h, c, h.regs[rs1]), rd, GetCsr(h, c)))
    case Csrr(rd, c) => Fell(SetReg(h, rd, GetCsr(h, c)))
    case Csrw(c, rs1) => Fell(SetCsr(h, c, h.regs[rs1]))
    case Add(rd, rs1, rs2) => Fell(SetReg(h, rd, (h.regs[rs1] + h.regs[rs2]) % w))
    case Addi(rd, rs1, imm) => Fell(SetReg(h, rd, (h.regs[rs1] + imm) % w))
    case Srli(rd, rs1, shift) => Fell(SetReg(h, rd, Half(shift, h.regs[rs1])))
    case Li(rd, imm) => Fell(SetReg(h, rd, imm % w))
    case Store(rs2, offset, rs1) => Fell(h.(mem := Write(h.mem, (h.regs[rs1] + offset) % w, h.regs[rs2])))
    case Load(rd, offset, rs1) => Fell(SetReg(h, rd, h.mem((h.regs[rs1] + offset) % w)))
    case Beq(rs1, rs2, l) => if h.regs[rs1] == h.regs[rs2] then Jumped(l, h) else Fell(h)
    case Bne(rs1, rs2, l) => if h.regs[rs1] != h.regs[rs2] then Jumped(l, h) else Fell(h)
    case J(l) => Jumped(l, h)
    case Mret => Returned(h)
  }

  ghost predicate EncodableAll(code: seq<Asm>) {
    forall i :: 0 <= i < |code| ==> Encodable(code[i])
  }

  function Exec(cfg: Cfg, code: seq<Asm>, h: Hart): (o: Outcome)
    requires |h.regs| == 32 && EncodableAll(code)
    ensures |o.st.regs| == 32
  {
    if code == [] then Fell(h)
    else
      var o := Step(cfg, code[0], h);
      if o.Fell? then Exec(cfg, code[1..], o.st) else o
  }

  lemma {:induction false} ExecConcat(cfg: Cfg, p: seq<Asm>, q: seq<Asm>, h: Hart)
    requires |h.regs| == 32 && EncodableAll(p) && EncodableAll(q)
    ensures EncodableAll(p + q)
    ensures var o := Exec(cfg, p, h);
            Exec(cfg, p + q, h) == if o.Fell? then Exec(cfg, q, o.st) else o
  {
    if p == [] {
      assert p + q == q;
    } else {
      assert (p + q)[1..] == p[1..] + q;
      var o := Step(cfg, p[0], h);
      if o.Fell? {
        ExecConcat(cfg, p[1..], q, o.st);
      }
    }
  }

  /** Exception codes of section 3.1.15 of the RISC-V Privileged Architecture, as the hart records them. */
  const CAUSE_ILLEGAL_INSTRUCTION: int := 2
  const CAUSE_ECALL_FROM_M: int := 11

  /** Control enters at the trap vector with the cause and the trapped address recorded. */
  function TrapEntry(h: Hart, pc: int, cause: int): Hart {
    h.(mepc := pc, mcause := cause)
  }

  /** The cause says interrupt when its top bit is set. */
  predicate IsInterrupt(cfg: Cfg, cause: int) {
    2 * cause >= Modulus(cfg.xlen)
  }

  /** The entry of the code at the vector that the hart jumps to: in vectored mode the interrupt's own. */
  function EntryOf(cfg: Cfg, cause: int): nat {
    if cfg.vectored && IsInterrupt(cfg, cause) then cause - Modulus(cfg.xlen) / 2 else 0
  }

  ghost predicate EncodableHandlers(cfg: Cfg) {
    EncodableAll(TvecCode(cfg)) && EncodableAll(VectorCode(cfg)) && EncodableAll(ExceptionCode(cfg))
  }

  /** Where the code at the vector, the interrupt vectors and the exception dispatch end. */
  function Dispatched(cfg: Cfg, h: Hart): (o: Outcome)
    requires |h.regs| == 32 && EncodableHandlers(cfg) && EntryOf(cfg, h.mcause) <= |TvecCode(cfg)|
    ensures |o.st.regs| == 32
  {
    var o := Exec(cfg, TvecCode(cfg)[EntryOf(cfg, h.mcause)..], h);
    if o.Jumped? && o.target.IntrVector? then Exec(cfg, VectorCode(cfg), o.st)
    else if o.Fell? || (o.Jumped? && o.target == ExceptionHandler) then Exec(cfg, ExceptionCode(cfg), o.st)
    else o
  }

  /** From the trap vector until control leaves the generated handler sections. */
  function HandleTrap(cfg: Cfg, h: Hart): Outcome
    requires |h.regs| == 32 && EncodableHandlers(cfg) && EncodableAll(IllegalCode(cfg))
    requires EntryOf(cfg, h.mcause) <= |TvecCode(cfg)|
  {
    var p := Dispatched(cfg, h);
    if p.Jumped? && p.target == IllegalHandler then Exec(cfg, IllegalCode(cfg), p.st) else p
  }

  lemma ExecCons(cfg: Cfg, a: Asm, rest: seq<Asm>, h: Hart)
    requires |h.regs| == 32 && Encodable(a) && EncodableAll(rest)
    ensures EncodableAll([a] + rest)
    ensures var o := Step(cfg, a, h);
            Exec(cfg, [a] + rest, h) == if o.Fell? then Exec(cfg, rest, o.st) else o
  {
    assert ([a] + rest)[1..] == rest;
  }
}
