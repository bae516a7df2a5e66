/**
 * The trap-handling code the generator writes: kernel-stack push and pop
 * (pygen/pygen_src/riscv_instr_pkg.py), exception dispatch and illegal-instruction handler
 * (pygen/pygen_src/riscv_asm_program_gen.py).
 */
module TrapCode {
  datatype Label = IntrHandler | IntrVector(vector: nat) | ExceptionHandler | EcallHandler | IllegalHandler | TestDone

  datatype Csr = MSTATUS | MSCRATCH | MEPC | MCAUSE | MTVAL

  datatype Asm =
    | Csrrw(rd: nat, csr: Csr, rs1: nat)
    | Csrr(rd: nat, csr: Csr)
    | Csrw(csr: Csr, rs1: nat)
    | Add(rd: nat, rs1: nat, rs2: nat)
    | Addi(rd: nat, rs1: nat, imm: int)
    | Srli(rd: nat, rs1: nat, shift: int)
    | Li(rd: nat, imm: int)
    | Store(rs2: nat, offset: int, rs1: nat)
    | Load(rd: nat, offset: int, rs1: nat)
    | Beq(rs1: nat, rs2: nat, target: Label)
    | Bne(rs1: nat, rs2: nat, target: Label)
    | J(target: Label)
    | Mret

  /** What the generated handlers depend on; `scratchImplemented` is `scratch in rcs.implemented_csr`. */
  datatype Cfg = Cfg(
    xlen: nat,
    sp: nat,
    tp: nat,
    gpr0: nat,
    gpr1: nat,
    scratchImplemented: bool,
    checkXstatus: bool,
    vectored: bool,
    vectors: nat)

  /** Bytes of one register. */
  function WordBytes(cfg: Cfg): nat {
    cfg.xlen / 8
  }

  const ZERO: nat := 0
  const RA: nat := 1
  const GP: nat := 3

  /** The constraints `sp_tp_c` and `gpr_c` put on the registers, for the two hart widths. */
  predicate LegalCfg(cfg: Cfg) {
    && cfg.xlen in {32, 64}
    && cfg.sp < 32 && cfg.tp < 32 && cfg.gpr0 < 32 && cfg.gpr1 < 32
    && cfg.sp != cfg.tp
    && cfg.sp !in {GP, RA, ZERO} && cfg.tp !in {GP, RA, ZERO}
    && cfg.gpr0 !in {cfg.sp, cfg.tp, ZERO, RA, GP}
    && cfg.gpr1 !in {cfg.sp, cfg.tp, ZERO, RA, GP}
    && cfg.gpr0 != cfg.gpr1
    && cfg.vectors >= 1
  }

  // ---------------------------------------------------------------- the code as values

  /** Stores of registers `k` to 31. */
  function StoresFrom(cfg: Cfg, k: nat): seq<Asm>
    decreases 32 - k
  {
    if k >= 32 then [] else [Store(k, k * WordBytes(cfg), cfg.sp)] + StoresFrom(cfg, k + 1)
  }

  function LoadsFrom(cfg: Cfg, k: nat): seq<Asm>
    decreases 32 - k
  {
    if k >= 32 then [] else [Load(k, k * WordBytes(cfg), cfg.sp)] + LoadsFrom(cfg, k + 1)
  }

  /** Swap sp out to the scratch register and point it at the kernel stack. */
  function EnterKernelStack(cfg: Cfg): seq<Asm> {
    if cfg.scratchImplemented then [Csrrw(cfg.sp, MSCRATCH, cfg.sp), Add(cfg.sp, cfg.tp, ZERO)] else []
  }

  function LeaveKernelStack(cfg: Cfg): seq<Asm> {
    if cfg.scratchImplemented then [Add(cfg.tp, cfg.sp, ZERO), Csrrw(cfg.sp, MSCRATCH, cfg.sp)] else []
  }

  /** Onto the kernel stack, and down by a frame. */
  function OpenFrame(cfg: Cfg): seq<Asm> {
    EnterKernelStack(cfg) + [Addi(cfg.sp, cfg.sp, -(31 * WordBytes(cfg)))]
  }

  function PushCode(cfg: Cfg): seq<Asm> {
    OpenFrame(cfg) + StoresFrom(cfg, 1)
  }

  function PopCode(cfg: Cfg): seq<Asm> {
    LoadsFrom(cfg, 1) + [Addi(cfg.sp, cfg.sp, 31 * WordBytes(cfg))] + LeaveKernelStack(cfg)
  }

  /** Jump to the interrupt handler when the top bit of the cause is set. */
  function InterruptCheck(cfg: Cfg): seq<Asm> {
    (if cfg.checkXstatus then [Csrr(cfg.gpr0, MSTATUS)] else []) +
    [Csrr(cfg.gpr0, MCAUSE), Srli(cfg.gpr0, cfg.gpr0, cfg.xlen - 1), Bne(cfg.gpr0, ZERO, IntrHandler)]
  }

  function VectorsFrom(cfg: Cfg, i: nat): seq<Asm>
    decreases cfg.vectors - i
  {
    if i >= cfg.vectors then [] else [J(IntrVector(i))] + VectorsFrom(cfg, i + 1)
  }

  function VectorTable(cfg: Cfg): seq<Asm> {
    [J(ExceptionHandler)] + VectorsFrom(cfg, 1)
  }

  /** What an entry of the table jumps to: to the interrupt handler if the cause is an interrupt's. */
  function VectorCode(cfg: Cfg): seq<Asm> {
    PushCode(cfg) + VectorCheck(cfg)
  }

  function VectorCheck(cfg: Cfg): seq<Asm> {
    [Csrr(cfg.gpr0, MCAUSE), Srli(cfg.gpr0, cfg.gpr0, cfg.xlen - 1), Beq(cfg.gpr0, ZERO, TestDone), J(IntrHandler)]
  }

  /** What stands at the trap vector. */
  function TvecCode(cfg: Cfg): seq<Asm> {
    if cfg.vectored then VectorTable(cfg) else PushCode(cfg) + InterruptCheck(cfg)
  }

  const ECALL_MMODE: nat := 0xB
  const ILLEGAL_INSTRUCTION: nat := 0x2

  /** Choose the handler by the cause; anything unknown ends the test. */
  function DispatchCode(cfg: Cfg): seq<Asm> {
    [Csrr(cfg.gpr0, MEPC), Csrr(cfg.gpr0, MCAUSE),
     Li(cfg.gpr1, ECALL_MMODE), Beq(cfg.gpr0, cfg.gpr1, EcallHandler),
     Li(cfg.gpr1, ILLEGAL_INSTRUCTION), Beq(cfg.gpr0, cfg.gpr1, IllegalHandler),
     Csrr(cfg.gpr1, MTVAL), J(TestDone)]
  }

  function ExceptionCode(cfg: Cfg): seq<Asm> {
    (if cfg.vectored then PushCode(cfg) else []) + DispatchCode(cfg)
  }

  function SkipCode(cfg: Cfg): seq<Asm> {
    [Csrr(cfg.gpr0, MEPC), Addi(cfg.gpr0, cfg.gpr0, 4), Csrw(MEPC, cfg.gpr0)]
  }

  function IllegalCode(cfg: Cfg): seq<Asm> {
    SkipCode(cfg) + PopCode(cfg) + [Mret]
  }

  // ---------------------------------------------------------------- the generator

  /** A list of instructions under construction. */
  class AsmList {
    var code: seq<Asm>

    constructor ()
      ensures code == []
    {
      code := [];
    }

    method Append(a: Asm)
      modifies this
      ensures code == old(code) + [a]
    {
      code := code + [a];
    }

    method Extend(more: seq<Asm>)
      modifies this
      ensures code == old(code) + more
    {
      code := code + more;
    }
  }

  lemma Regroup(a: seq<Asm>, b: seq<Asm>, c: seq<Asm>)
    ensures (a + b) + c == a + (b + c)
  {
  }

  method PushGprToKernelStack(cfg: Cfg, instr: AsmList)
    modifies instr
    ensures instr.code == old(instr.code) + PushCode(cfg)
  {
    ghost var before, enter, down := instr.code, EnterKernelStack(cfg), Addi(cfg.sp, cfg.sp, -(31 * WordBytes(cfg)));
    if cfg.scratchImplemented {
      instr.Extend([Csrrw(cfg.sp, MSCRATCH, cfg.sp), Add(cfg.sp, cfg.tp, ZERO)]);
    } else {
      assert before + enter == before;
    }
    instr.Append(Addi(cfg.sp, cfg.sp, -(31 * WordBytes(cfg))));
    Regroup(before, enter, [down]);
    Regroup(before, enter + [down], StoresFrom(cfg, 1));
    for i := 1 to 32
      invariant instr.code + StoresFrom(cfg, i) == old(instr.code) + PushCode(cfg)
    {
      Regroup(instr.code, [Store(i, i * WordBytes(cfg), cfg.sp)], StoresFrom(cfg, i + 1));
      instr.Append(Store(i, i * WordBytes(cfg), cfg.sp));
    }
    assert instr.code + [] == instr.code;
  }

  method PopGprFromKernelStack(cfg: Cfg, instr: AsmList)
    modifies instr
    ensures instr.code == old(instr.code) + PopCode(cfg)
  {
    for i := 1 to 32
      invariant instr.code + LoadsFrom(cfg, i) == old(instr.code) + LoadsFrom(cfg, 1)
    {
      Regroup(instr.code, [Load(i, i * WordBytes(cfg), cfg.sp)], LoadsFrom(cfg, i + 1));
      instr.Append(Load(i, i * WordBytes(cfg), cfg.sp));
    }
    assert instr.code + [] == instr.code;
    ghost var before, loads, up := old(instr.code), LoadsFrom(cfg, 1), [Addi(cfg.sp, cfg.sp, 31 * WordBytes(cfg))];
    instr.Append(Addi(cfg.sp, cfg.sp, 31 * WordBytes(cfg)));
    Regroup(before, loads, up);
    Regroup(before, loads + up, LeaveKernelStack(cfg));
    if cfg.scratchImplemented {
      instr.Extend([Add(cfg.tp, cfg.sp, ZERO), Csrrw(cfg.sp, MSCRATCH, cfg.sp)]);
    } else {
      assert instr.code + [] == instr.code;
    }
  }

  /** The table, and the section behind each of its entries but the first. */
  method GenInterruptVectorTable(cfg: Cfg, instr: AsmList) returns (sections: seq<seq<Asm>>)
    requires cfg.vectors >= 1
    modifies instr
    ensures instr.code == old(instr.code) + VectorTable(cfg)
    ensures |sections| == cfg.vectors - 1 && forall i :: 0 <= i < |sections| ==> sections[i] == VectorCode(cfg)
  {
    instr.Append(J(ExceptionHandler));
    for i := 1 to cfg.vectors
      invariant instr.code + VectorsFrom(cfg, i) == old(instr.code) + VectorTable(cfg)
    {
      Regroup(instr.code, [J(IntrVector(i))], VectorsFrom(cfg, i + 1));
      instr.Append(J(IntrVector(i)));
    }
    assert instr.code + [] == instr.code;
    sections := [];
    for i := 1 to cfg.vectors
      invariant instr.code == old(instr.code) + VectorTable(cfg)
      invariant |sections| == i - 1 && forall k :: 0 <= k < |sections| ==> sections[k] == VectorCode(cfg)
    {
      var handler := GenInterruptVector(cfg);
      sections := sections + [handler];
    }
  }

  method GenInterruptVector(cfg: Cfg) returns (code: seq<Asm>)
    ensures code == VectorCode(cfg)
  {
    var handler := new AsmList();
    PushGprToKernelStack(cfg, handler);
    assert [] + PushCode(cfg) == PushCode(cfg);
    assert handler.code == PushCode(cfg);
    var check := [Csrr(cfg.gpr0, MCAUSE), Srli(cfg.gpr0, cfg.gpr0, cfg.xlen - 1), Beq(cfg.gpr0, ZERO, TestDone),
                  J(IntrHandler)];
    assert check == VectorCheck(cfg);
    handler.Extend(check);
    code := handler.code;
  }

  method GenInterruptCheck(cfg: Cfg, instr: AsmList)
    modifies instr
    ensures instr.code == old(instr.code) + InterruptCheck(cfg)
  {
    if cfg.checkXstatus {
      instr.Append(Csrr(cfg.gpr0, MSTATUS));
    }
    instr.Extend([Csrr(cfg.gpr0, MCAUSE), Srli(cfg.gpr0, cfg.gpr0, cfg.xlen - 1), Bne(cfg.gpr0, ZERO, IntrHandler)]);
  }

  method GenTrapHandlerSection(cfg: Cfg) returns (tvec: AsmList, exc: AsmList, sections: seq<seq<Asm>>)
    requires cfg.vectors >= 1
    ensures tvec.code == TvecCode(cfg) && exc.code == ExceptionCode(cfg)
    ensures |sections| == if cfg.vectored then cfg.vectors - 1 else 0
    ensures forall i :: 0 <= i < |sections| ==> sections[i] == VectorCode(cfg)
  {
    tvec := new AsmList();
    sections := [];
    if cfg.vectored {
      sections := GenInterruptVectorTable(cfg, tvec);
      assert [] + VectorTable(cfg) == VectorTable(cfg);
    } else {
      PushGprToKernelStack(cfg, tvec);
      assert [] + PushCode(cfg) == PushCode(cfg);
      GenInterruptCheck(cfg, tvec);
    }
    exc := new AsmList();
    if cfg.vectored {
      PushGprToKernelStack(cfg, exc);
      assert [] + PushCode(cfg) == PushCode(cfg);
    }
    exc.Extend(DispatchCode(cfg));
  }

  method GenIllegalInstrHandler(cfg: Cfg) returns (instr: AsmList)
    ensures instr.code == IllegalCode(cfg)
  {
    instr := new AsmList();
    instr.Extend(SkipCode(cfg));
    assert [] + SkipCode(cfg) == SkipCode(cfg);
    PopGprFromKernelStack(cfg, instr);
    assert instr.code == SkipCode(cfg) + PopCode(cfg);
    instr.Append(Mret);
  }
}
