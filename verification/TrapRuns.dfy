/** The whole trap path, and programs that take any number of traps. */
module TrapRuns {
  import opened Bits
  import opened Words
  import opened TrapCode
  import opened TrapMachine
  import opened TrapTransparency

  lemma {:induction false} HalfTop(n: nat, v: int)
    requires 0 <= v < 2 * Pow2(n)
    ensures Half(n, v) == if v < Pow2(n) then 0 else 1
  {
    if n == 0 {
    } else {
      HalfTop(n - 1, v / 2);
    }
  }

  lemma InsideKept(cfg: Cfg, h: Hart, g: Hart, r: nat, v: int)
    requires LegalCfg(cfg) && |h.regs| == 32 && Inside(cfg, h, g) && 0 < r < 32 && r != cfg.sp
    ensures Inside(cfg, h, g.(regs := g.regs[r := v]))
  {
  }

  // ---------------------------------------------------------------- choosing a handler

  /** The top bit of the cause. */
  function CauseBit(cfg: Cfg, h: Hart): int {
    if IsInterrupt(cfg, h.mcause) then 1 else 0
  }

  lemma CauseTop(cfg: Cfg, h: Hart)
    requires LegalCfg(cfg) && ValidHart(cfg, h)
    ensures Half(cfg.xlen - 1, h.mcause) == CauseBit(cfg, h)
  {
    ModulusIsPow(cfg.xlen);
    assert IsWord(cfg, h.mcause);
    HalfTop(cfg.xlen - 1, h.mcause);
  }

  /** Reading the cause and shifting leaves its top bit in gpr0 for the code that follows. */
  lemma ShiftRun(cfg: Cfg, h: Hart, g: Hart, rest: seq<Asm>)
    requires LegalCfg(cfg) && ValidHart(cfg, h) && Inside(cfg, h, g) && EncodableAll(rest)
    ensures var code := [Csrr(cfg.gpr0, MCAUSE), Srli(cfg.gpr0, cfg.gpr0, cfg.xlen - 1)] + rest;
            var g' := g.(regs := g.regs[cfg.gpr0 := CauseBit(cfg, h)]);
            && EncodableAll(code) && Inside(cfg, h, g')
            && Exec(cfg, code, g) == Exec(cfg, rest, g')
  {
    var read, shift := Csrr(cfg.gpr0, MCAUSE), Srli(cfg.gpr0, cfg.gpr0, cfg.xlen - 1);
    var g1 := g.(regs := g.regs[cfg.gpr0 := h.mcause]);
    var g2 := g.(regs := g.regs[cfg.gpr0 := CauseBit(cfg, h)]);
    InsideKept(cfg, h, g, cfg.gpr0, CauseBit(cfg, h));
    CauseTop(cfg, h);
    assert g1.(regs := g1.regs[cfg.gpr0 := CauseBit(cfg, h)]) == g2;
    assert Step(cfg, shift, g1) == Fell(g2);
    ExecCons(cfg, shift, rest, g1);
    ExecCons(cfg, read, [shift] + rest, g);
    assert [read] + ([shift] + rest) == [read, shift] + rest;
  }

  lemma ShiftCheckRun(cfg: Cfg, h: Hart, g: Hart)
    requires LegalCfg(cfg) && ValidHart(cfg, h) && Inside(cfg, h, g)
    ensures var code := [Csrr(cfg.gpr0, MCAUSE), Srli(cfg.gpr0, cfg.gpr0, cfg.xlen - 1),
                         Bne(cfg.gpr0, ZERO, IntrHandler)];
            && EncodableAll(code)
            && var o := Exec(cfg, code, g);
               && Inside(cfg, h, o.st)
               && if IsInterrupt(cfg, h.mcause) then o == Jumped(IntrHandler, o.st) else o.Fell?
  {
    var jump := Bne(cfg.gpr0, ZERO, IntrHandler);
    var g' := g.(regs := g.regs[cfg.gpr0 := CauseBit(cfg, h)]);
    ExecCons(cfg, jump, [], g');
    assert [jump] + [] == [jump];
    ShiftRun(cfg, h, g, [jump]);
    assert [Csrr(cfg.gpr0, MCAUSE), Srli(cfg.gpr0, cfg.gpr0, cfg.xlen - 1)] + [jump] ==
           [Csrr(cfg.gpr0, MCAUSE), Srli(cfg.gpr0, cfg.gpr0, cfg.xlen - 1), jump];
  }

  /** The optional read of mstatus is there when asked for, and nothing else comes before the read of the cause. */
  lemma CheckBegins(cfg: Cfg)
    ensures var code := InterruptCheck(cfg);
            if cfg.checkXstatus
            then |code| == 4 && code[0] == Csrr(cfg.gpr0, MSTATUS) && code[1] == Csrr(cfg.gpr0, MCAUSE)
            else |code| == 3 && code[0] == Csrr(cfg.gpr0, MCAUSE)
  {
  }

  lemma CheckRun(cfg: Cfg, h: Hart, g: Hart)
    requires LegalCfg(cfg) && ValidHart(cfg, h) && Inside(cfg, h, g)
    ensures EncodableAll(InterruptCheck(cfg))
    ensures var o := Exec(cfg, InterruptCheck(cfg), g);
            && Inside(cfg, h, o.st)
            && if IsInterrupt(cfg, h.mcause) then o == Jumped(IntrHandler, o.st) else o.Fell?
  {
    var tail := [Csrr(cfg.gpr0, MCAUSE), Srli(cfg.gpr0, cfg.gpr0, cfg.xlen - 1), Bne(cfg.gpr0, ZERO, IntrHandler)];
    if cfg.checkXstatus {
      var g0 := g.(regs := g.regs[cfg.gpr0 := g.mstatus]);
      InsideKept(cfg, h, g, cfg.gpr0, g.mstatus);
      ShiftCheckRun(cfg, h, g0);
      ExecCons(cfg, Csrr(cfg.gpr0, MSTATUS), tail, g);
    } else {
      ShiftCheckRun(cfg, h, g);
      assert InterruptCheck(cfg) == tail;
    }
  }

  /** Behind an entry of the vector table interrupts go on to the interrupt handler. */
  lemma VectorRun(cfg: Cfg, h: Hart)
    requires LegalCfg(cfg) && ValidHart(cfg, h)
    ensures EncodableAll(VectorCode(cfg))
    ensures var o := Exec(cfg, VectorCode(cfg), h);
            && o == Jumped(if IsInterrupt(cfg, h.mcause) then IntrHandler else TestDone, o.st)
            && Inside(cfg, h, o.st)
  {
    PushRun(cfg, h);
    var g := Exec(cfg, PushCode(cfg), h).st;
    var stop, go := Beq(cfg.gpr0, ZERO, TestDone), J(IntrHandler);
    var g' := g.(regs := g.regs[cfg.gpr0 := CauseBit(cfg, h)]);
    ExecCons(cfg, go, [], g');
    ExecCons(cfg, stop, [go] + [], g');
    ShiftRun(cfg, h, g, [stop] + ([go] + []));
    assert [Csrr(cfg.gpr0, MCAUSE), Srli(cfg.gpr0, cfg.gpr0, cfg.xlen - 1)] + ([stop] + ([go] + [])) ==
           VectorCheck(cfg);
    ExecConcat(cfg, PushCode(cfg), VectorCheck(cfg), h);
  }

  /** The handler an exception is sent to. */
  function HandlerOf(cause: int): Label {
    if cause == CAUSE_ECALL_FROM_M then EcallHandler
    else if cause == CAUSE_ILLEGAL_INSTRUCTION then IllegalHandler
    else TestDone
  }

  lemma LoadConstant(cfg: Cfg, g: Hart, r: nat, k: nat)
    requires LegalCfg(cfg) && |g.regs| == 32 && 0 < r < 32 && k < 16
    ensures Step(cfg, Li(r, k), g) == Fell(g.(regs := g.regs[r := k]))
  {
    assert k % Modulus(cfg.xlen) == k;
  }

  /** Compare gpr0 with a constant and jump if it is equal. */
  lemma CompareRun(cfg: Cfg, g: Hart, k: nat, l: Label, rest: seq<Asm>)
    requires LegalCfg(cfg) && |g.regs| == 32 && k < 16 && EncodableAll(rest)
    ensures var code := [Li(cfg.gpr1, k), Beq(cfg.gpr0, cfg.gpr1, l)] + rest;
            var g' := g.(regs := g.regs[cfg.gpr1 := k]);
            && EncodableAll(code)
            && Exec(cfg, code, g) == if g.regs[cfg.gpr0] == k then Jumped(l, g') else Exec(cfg, rest, g')
  {
    var load, jump := Li(cfg.gpr1, k), Beq(cfg.gpr0, cfg.gpr1, l);
    LoadConstant(cfg, g, cfg.gpr1, k);
    ExecCons(cfg, jump, rest, g.(regs := g.regs[cfg.gpr1 := k]));
    ExecCons(cfg, load, [jump] + rest, g);
    assert [load] + ([jump] + rest) == [load, jump] + rest;
  }

  /** What follows the two reads of the dispatch: the comparisons, and the jump that ends the test. */
  function ChooseCode(cfg: Cfg): seq<Asm> {
    [Li(cfg.gpr1, ECALL_MMODE), Beq(cfg.gpr0, cfg.gpr1, EcallHandler)] +
    ([Li(cfg.gpr1, ILLEGAL_INSTRUCTION), Beq(cfg.gpr0, cfg.gpr1, IllegalHandler)] +
     [Csrr(cfg.gpr1, MTVAL), J(TestDone)])
  }

  lemma EndTestRun(cfg: Cfg, h: Hart, g: Hart)
    requires LegalCfg(cfg) && ValidHart(cfg, h) && Inside(cfg, h, g)
    ensures var code := [Csrr(cfg.gpr1, MTVAL), J(TestDone)];
            && EncodableAll(code)
            && var o := Exec(cfg, code, g);
               o == Jumped(TestDone, o.st) && Inside(cfg, h, o.st) && o.st.regs[cfg.gpr1] == h.mtval
  {
    var b := cfg.gpr1;
    InsideKept(cfg, h, g, b, h.mtval);
    ExecCons(cfg, J(TestDone), [], g.(regs := g.regs[b := h.mtval]));
    assert [J(TestDone)] + [] == [J(TestDone)];
    ExecCons(cfg, Csrr(b, MTVAL), [J(TestDone)], g);
    assert [Csrr(b, MTVAL)] + [J(TestDone)] == [Csrr(b, MTVAL), J(TestDone)];
  }

  lemma ChooseRun(cfg: Cfg, h: Hart, g: Hart)
    requires LegalCfg(cfg) && ValidHart(cfg, h) && Inside(cfg, h, g) && g.regs[cfg.gpr0] == h.mcause
    ensures EncodableAll(ChooseCode(cfg))
    ensures var o := Exec(cfg, ChooseCode(cfg), g);
            && o == Jumped(HandlerOf(h.mcause), o.st) && Inside(cfg, h, o.st)
            && (o.target == TestDone ==> o.st.regs[cfg.gpr1] == h.mtval)
  {
    var b, last := cfg.gpr1, [Csrr(cfg.gpr1, MTVAL), J(TestDone)];
    var g1 := g.(regs := g.regs[b := ECALL_MMODE]);
    var g2 := g1.(regs := g1.regs[b := ILLEGAL_INSTRUCTION]);
    InsideKept(cfg, h, g, b, ECALL_MMODE);
    InsideKept(cfg, h, g1, b, ILLEGAL_INSTRUCTION);
    EndTestRun(cfg, h, g2);
    CompareRun(cfg, g1, ILLEGAL_INSTRUCTION, IllegalHandler, last);
    var second := [Li(b, ILLEGAL_INSTRUCTION), Beq(cfg.gpr0, b, IllegalHandler)] + last;
    CompareRun(cfg, g, ECALL_MMODE, EcallHandler, second);
  }

  lemma DispatchRun(cfg: Cfg, h: Hart, g: Hart)
    requires LegalCfg(cfg) && ValidHart(cfg, h) && Inside(cfg, h, g)
    ensures EncodableAll(DispatchCode(cfg))
    ensures var o := Exec(cfg, DispatchCode(cfg), g);
            && o == Jumped(HandlerOf(h.mcause), o.st) && Inside(cfg, h, o.st)
            && (o.target == TestDone ==> o.st.regs[cfg.gpr1] == h.mtval)
  {
    var a := cfg.gpr0;
    var g1 := g.(regs := g.regs[a := h.mepc]);
    var g2 := g1.(regs := g1.regs[a := h.mcause]);
    InsideKept(cfg, h, g, a, h.mepc);
    InsideKept(cfg, h, g1, a, h.mcause);
    ChooseRun(cfg, h, g2);
    ExecCons(cfg, Csrr(a, MCAUSE), ChooseCode(cfg), g1);
    ExecCons(cfg, Csrr(a, MEPC), [Csrr(a, MCAUSE)] + ChooseCode(cfg), g);
    assert [Csrr(a, MEPC)] + ([Csrr(a, MCAUSE)] + ChooseCode(cfg)) == DispatchCode(cfg);
  }

  /** The address of the instruction after a four-byte one. */
  function After(cfg: Cfg, pc: int): int {
    (pc + 4) % Modulus(cfg.xlen)
  }

  lemma SkipRun(cfg: Cfg, h: Hart, g: Hart)
    requires LegalCfg(cfg) && ValidHart(cfg, h) && Inside(cfg, h, g)
    ensures EncodableAll(SkipCode(cfg))
    ensures var o := Exec(cfg, SkipCode(cfg), g);
            o.Fell? && o.st.mepc == After(cfg, h.mepc) && Inside(cfg, h, o.st.(mepc := h.mepc))
  {
    var a, next := cfg.gpr0, After(cfg, h.mepc);
    var g1 := g.(regs := g.regs[a := h.mepc]);
    var g2 := g1.(regs := g1.regs[a := next]);
    InsideKept(cfg, h, g, a, h.mepc);
    InsideKept(cfg, h, g1, a, next);
    var c3: seq<Asm> := [Csrw(MEPC, a)] + [];
    ExecCons(cfg, Csrw(MEPC, a), [], g2);
    var c2 := [Addi(a, a, 4)] + c3;
    ExecCons(cfg, Addi(a, a, 4), c3, g1);
    ExecCons(cfg, Csrr(a, MEPC), c2, g);
    assert [Csrr(a, MEPC)] + c2 == SkipCode(cfg);
  }

  // ---------------------------------------------------------------- one trap

  /** The illegal-instruction handler returns with every register as it was at the trap. */
  lemma IllegalRun(cfg: Cfg, h: Hart, g: Hart)
    requires LegalCfg(cfg) && ValidHart(cfg, h) && Inside(cfg, h, g)
    ensures EncodableAll(IllegalCode(cfg))
    ensures Exec(cfg, IllegalCode(cfg), g) ==
            Returned(g.(regs := h.regs, mepc := After(cfg, h.mepc),
                        mscratch := if cfg.scratchImplemented then FrameTop(cfg, h) else h.mscratch))
  {
    SkipRun(cfg, h, g);
    var g1 := Exec(cfg, SkipCode(cfg), g).st;
    assert g1 == g.(regs := g1.regs, mepc := g1.mepc) by {
      SkipKeeps(cfg, g);
    }
    PopRun(cfg, h, g1);
    ExecConcat(cfg, SkipCode(cfg), PopCode(cfg), g);
    var g2 := Exec(cfg, PopCode(cfg), g1).st;
    ExecCons(cfg, Mret, [], g2);
    assert [Mret] + [] == [Mret];
    ExecConcat(cfg, SkipCode(cfg) + PopCode(cfg), [Mret], g);
  }

  lemma SkipKeeps(cfg: Cfg, g: Hart)
    requires LegalCfg(cfg) && |g.regs| == 32
    ensures EncodableAll(SkipCode(cfg))
    ensures var o := Exec(cfg, SkipCode(cfg), g); o.Fell? && o.st == g.(regs := o.st.regs, mepc := o.st.mepc)
  {
    var a := cfg.gpr0;
    var g1 := SetReg(g, a, g.mepc);
    var g2 := SetReg(g1, a, (g1.regs[a] + 4) % Modulus(cfg.xlen));
    var c3: seq<Asm> := [Csrw(MEPC, a)] + [];
    ExecCons(cfg, Csrw(MEPC, a), [], g2);
    var c2 := [Addi(a, a, 4)] + c3;
    ExecCons(cfg, Addi(a, a, 4), c3, g1);
    ExecCons(cfg, Csrr(a, MEPC), c2, g);
    assert [Csrr(a, MEPC)] + c2 == SkipCode(cfg);
  }

  lemma ExceptionRun(cfg: Cfg, h: Hart)
    requires LegalCfg(cfg) && ValidHart(cfg, h)
    ensures EncodableAll(ExceptionCode(cfg))
    ensures cfg.vectored ==>
              var p := Exec(cfg, ExceptionCode(cfg), h);
              p == Jumped(HandlerOf(h.mcause), p.st) && Inside(cfg, h, p.st)
  {
    PushRun(cfg, h);
    var g := Exec(cfg, PushCode(cfg), h).st;
    DispatchRun(cfg, h, g);
    ExecConcat(cfg, PushCode(cfg), DispatchCode(cfg), h);
    assert [] + DispatchCode(cfg) == DispatchCode(cfg);
  }

  /** In direct mode the code at the vector saves the registers and looks for interrupts. */
  lemma DirectRun(cfg: Cfg, h: Hart)
    requires LegalCfg(cfg) && ValidHart(cfg, h) && !cfg.vectored
    ensures EncodableAll(TvecCode(cfg))
    ensures var o := Exec(cfg, TvecCode(cfg), h);
            && Inside(cfg, h, o.st)
            && if IsInterrupt(cfg, h.mcause) then o == Jumped(IntrHandler, o.st) else o.Fell?
  {
    PushRun(cfg, h);
    CheckRun(cfg, h, Exec(cfg, PushCode(cfg), h).st);
    ExecConcat(cfg, PushCode(cfg), InterruptCheck(cfg), h);
  }

  lemma {:induction false} VectorsEncodable(cfg: Cfg, i: nat)
    ensures EncodableAll(VectorsFrom(cfg, i))
    decreases cfg.vectors - i
  {
    if i >= cfg.vectors {
    } else {
      VectorsEncodable(cfg, i + 1);
    }
  }

  lemma {:induction false} VectorsAt(cfg: Cfg, k: nat, i: nat)
    requires k <= i < cfg.vectors
    ensures i - k <= |VectorsFrom(cfg, k)| && VectorsFrom(cfg, k)[i - k..] == VectorsFrom(cfg, i)
    decreases i - k
  {
    if k == i {
    } else {
      VectorsAt(cfg, k + 1, i);
      assert VectorsFrom(cfg, k)[i - k..] == VectorsFrom(cfg, k + 1)[i - k - 1..];
    }
  }

  /** In vectored mode the table sends an entry to its own section, the first one to the exception handler. */
  lemma TableRun(cfg: Cfg, h: Hart, i: nat)
    requires LegalCfg(cfg) && |h.regs| == 32 && cfg.vectored && i < cfg.vectors
    ensures EncodableAll(TvecCode(cfg)) && i <= |TvecCode(cfg)|
    ensures Exec(cfg, TvecCode(cfg)[i..], h) == Jumped(if i == 0 then ExceptionHandler else IntrVector(i), h)
  {
    VectorsEncodable(cfg, 1);
    if i == 0 {
      assert TvecCode(cfg)[0..] == [J(ExceptionHandler)] + VectorsFrom(cfg, 1);
      ExecCons(cfg, J(ExceptionHandler), VectorsFrom(cfg, 1), h);
    } else {
      VectorsAt(cfg, 1, i);
      VectorsEncodable(cfg, i + 1);
      assert TvecCode(cfg)[i..] == VectorsFrom(cfg, 1)[i - 1..] == [J(IntrVector(i))] + VectorsFrom(cfg, i + 1);
      ExecCons(cfg, J(IntrVector(i)), VectorsFrom(cfg, i + 1), h);
    }
  }

  /**
   * The handler a trap is sent to. Interrupts go to the interrupt handler, except that in vectored mode
   * interrupt 0 shares its entry with the exceptions.
   */
  function HandlerFor(cfg: Cfg, cause: int): Label {
    if IsInterrupt(cfg, cause) && (!cfg.vectored || EntryOf(cfg, cause) > 0) then IntrHandler else HandlerOf(cause)
  }

  /** Every trap comes to its handler with everything of the program in the frame or untouched. */
  lemma DispatchedRun(cfg: Cfg, h: Hart)
    requires LegalCfg(cfg) && ValidHart(cfg, h) && EntryOf(cfg, h.mcause) < cfg.vectors
    ensures EncodableHandlers(cfg) && EntryOf(cfg, h.mcause) <= |TvecCode(cfg)|
    ensures var p := Dispatched(cfg, h); p == Jumped(HandlerFor(cfg, h.mcause), p.st) && Inside(cfg, h, p.st)
  {
    ExceptionRun(cfg, h);
    VectorRun(cfg, h);
    if cfg.vectored {
      TableRun(cfg, h, EntryOf(cfg, h.mcause));
    } else {
      DirectRun(cfg, h);
      assert TvecCode(cfg)[0..] == TvecCode(cfg);
      assert ExceptionCode(cfg) == DispatchCode(cfg);
      DispatchRun(cfg, h, Exec(cfg, TvecCode(cfg), h).st);
    }
  }

  lemma SentToIllegal(cfg: Cfg, h: Hart)
    requires LegalCfg(cfg) && ValidHart(cfg, h) && h.mcause == 2
    ensures EncodableHandlers(cfg) && EncodableAll(IllegalCode(cfg)) && EntryOf(cfg, h.mcause) <= |TvecCode(cfg)|
    ensures var p := Dispatched(cfg, h);
            p.Jumped? && Inside(cfg, h, p.st) && HandleTrap(cfg, h) == Exec(cfg, IllegalCode(cfg), p.st)
  {
    DispatchedRun(cfg, h);
    IllegalRun(cfg, h, Dispatched(cfg, h).st);
  }

  lemma IllegalReturns(cfg: Cfg, h: Hart)
    requires LegalCfg(cfg) && ValidHart(cfg, h) && h.mcause == 2
    ensures EncodableHandlers(cfg) && EncodableAll(IllegalCode(cfg)) && EntryOf(cfg, h.mcause) <= |TvecCode(cfg)|
    ensures var o := HandleTrap(cfg, h);
            && o.Returned?
            && o.st.regs == h.regs
            && o.st.mepc == (h.mepc + 4) % Modulus(cfg.xlen)
            && o.st.mscratch == (if cfg.scratchImplemented then FrameTop(cfg, h) else h.mscratch)
            && o.st.mcause == h.mcause && o.st.mtval == h.mtval && o.st.mstatus == h.mstatus
            && Saved(cfg, FrameTop(cfg, h), 1, SavedRegs(cfg, h), h.mem, o.st.mem)
  {
    SentToIllegal(cfg, h);
    IllegalRun(cfg, h, Dispatched(cfg, h).st);
  }

  /**
   * Where every trap goes. Exceptions go to the handler of their cause and interrupts to the interrupt
   * handler, in both modes, with the program's state saved; an illegal instruction comes back after itself.
   */
  lemma TrapVerdict(cfg: Cfg, h: Hart)
    requires LegalCfg(cfg) && ValidHart(cfg, h) && EntryOf(cfg, h.mcause) < cfg.vectors
    ensures EncodableHandlers(cfg) && EncodableAll(IllegalCode(cfg)) && EntryOf(cfg, h.mcause) <= |TvecCode(cfg)|
    ensures var o, l := HandleTrap(cfg, h), HandlerFor(cfg, h.mcause);
            if l == IllegalHandler then o.Returned? else o == Jumped(l, o.st) && Inside(cfg, h, o.st)
    ensures h.mcause == 11 ==> var o := HandleTrap(cfg, h); o == Jumped(EcallHandler, o.st)
    ensures h.mcause == 2 ==>
              var o := HandleTrap(cfg, h);
              && o.Returned?
              && o.st.regs == h.regs
              && o.st.mepc == (h.mepc + 4) % Modulus(cfg.xlen)
              && o.st.mscratch == (if cfg.scratchImplemented then FrameTop(cfg, h) else h.mscratch)
              && o.st.mcause == h.mcause && o.st.mtval == h.mtval && o.st.mstatus == h.mstatus
              && Saved(cfg, FrameTop(cfg, h), 1, SavedRegs(cfg, h), h.mem, o.st.mem)
  {
    DispatchedRun(cfg, h);
    IllegalRun(cfg, h, Dispatched(cfg, h).st);
    if h.mcause == 2 {
      IllegalReturns(cfg, h);
    }
  }

  /**
   * Without the scratch register the frame is opened on the program's own stack, and its highest slot is the
   * word sp points at: an illegal instruction leaves x31 there.
   */
  lemma NoScratchOverwritesStack(cfg: Cfg, h: Hart)
    requires LegalCfg(cfg) && ValidHart(cfg, h) && !cfg.scratchImplemented && h.mcause == CAUSE_ILLEGAL_INSTRUCTION
    ensures EncodableHandlers(cfg) && EncodableAll(IllegalCode(cfg)) && EntryOf(cfg, h.mcause) == 0
    ensures var o := HandleTrap(cfg, h);
            o.Returned? && o.st.regs == h.regs && o.st.mem(h.regs[cfg.sp]) == SavedRegs(cfg, h)[31]
  {
    TrapVerdict(cfg, h);
    TopSlot(cfg, h.regs[cfg.sp]);
  }

  lemma TopSlot(cfg: Cfg, top: int)
    requires LegalCfg(cfg) && IsWord(cfg, top)
    ensures SlotAddr(cfg, top, 31) == top
  {
  }

  /** A machine timer interrupt goes through its own vector to the interrupt handler. */
  lemma TimerInterruptGoesToHandler(cfg: Cfg, h: Hart)
    requires LegalCfg(cfg) && ValidHart(cfg, h) && cfg.vectored && cfg.vectors == 16
    requires h.mcause == Modulus(cfg.xlen) / 2 + 7
    ensures EncodableHandlers(cfg) && EncodableAll(IllegalCode(cfg)) && EntryOf(cfg, h.mcause) == 7 <= |TvecCode(cfg)|
    ensures var o := HandleTrap(cfg, h); o == Jumped(IntrHandler, o.st)
  {
    TrapVerdict(cfg, h);
  }

  // ---------------------------------------------------------------- any number of traps

  /** The CSRs a trap or its handler writes. */
  datatype Csrs = Csrs(mstatus: int, mscratch: int, mepc: int, mcause: int, mtval: int)

  /** What a program can see and change between traps. */
  datatype User = User(pc: int, regs: seq<int>, mem: int -> int, csrs: Csrs)

  /** One step of the program: an ordinary instruction, or one that traps as illegal. */
  datatype Event = Ordinary(f: User -> User) | Illegal

  predicate WordCsrs(cfg: Cfg, c: Csrs) {
    && IsWord(cfg, c.mstatus) && IsWord(cfg, c.mscratch) && IsWord(cfg, c.mepc)
    && IsWord(cfg, c.mcause) && IsWord(cfg, c.mtval)
  }

  ghost predicate ValidUser(cfg: Cfg, kernelSp: int, u: User) {
    && LegalCfg(cfg) && IsWord(cfg, u.pc) && WordCsrs(cfg, u.csrs)
    && |u.regs| == 32 && u.regs[0] == 0 && u.regs[cfg.tp] == kernelSp
    && (forall i :: 0 <= i < 32 ==> IsWord(cfg, u.regs[i]))
    && forall a {:trigger u.mem(a)} :: IsWord(cfg, u.mem(a))
  }

  /** The two memories differ at most where the kernel stack frame is. */
  ghost predicate SameOutside(cfg: Cfg, kernelSp: int, m: int -> int, n: int -> int) {
    forall a {:trigger m(a)} {:trigger n(a)} :: !InFrame(cfg, kernelSp, a) ==> m(a) == n(a)
  }

  /** The two differ at most in the frame and in those CSRs. */
  ghost predicate SameUser(cfg: Cfg, kernelSp: int, u: User, v: User) {
    u.pc == v.pc && u.regs == v.regs && SameOutside(cfg, kernelSp, u.mem, v.mem)
  }

  /**
   * From `u` on, the instruction keeps tp and the words words, and does the same whatever the kernel stack
   * frame and the CSRs of traps hold: it reads neither, nor lets anything depend on them. It may write them.
   */
  ghost predicate Behaved(cfg: Cfg, kernelSp: int, f: User -> User, u: User) {
    && ValidUser(cfg, kernelSp, f(u))
    && forall v {:trigger f(v)} :: SameUser(cfg, kernelSp, u, v) ==> SameUser(cfg, kernelSp, f(u), f(v))
  }

  function View(pc: int, h: Hart): User {
    User(pc, h.regs, h.mem, Csrs(h.mstatus, h.mscratch, h.mepc, h.mcause, h.mtval))
  }

  /** The hart the program leaves behind. */
  function Placed(u: User): Hart {
    Hart(u.regs, u.mem, u.csrs.mstatus, u.csrs.mscratch, u.csrs.mepc, u.csrs.mcause, u.csrs.mtval)
  }

  ghost predicate ValidAt(cfg: Cfg, kernelSp: int, pc: int, h: Hart) {
    ValidUser(cfg, kernelSp, View(pc, h)) && ValidHart(cfg, h)
  }

  /** A load of a whole register, and a store of one, as the program sees them. */
  function LoadWord(cfg: Cfg, rd: nat, rs1: nat, offset: int): User -> User
    requires 0 < rd < 32 && rs1 < 32
  {
    (u: User) =>
      if |u.regs| != 32 then u
      else u.(pc := After(cfg, u.pc), regs := u.regs[rd := u.mem(Address(cfg, u, rs1, offset))])
  }

  function StoreWord(cfg: Cfg, rs2: nat, rs1: nat, offset: int): User -> User
    requires rs2 < 32 && rs1 < 32
  {
    (u: User) =>
      if |u.regs| != 32 then u
      else u.(pc := After(cfg, u.pc), mem := Write(u.mem, Address(cfg, u, rs1, offset), u.regs[rs2]))
  }

  function Address(cfg: Cfg, u: User, rs1: nat, offset: int): int
    requires rs1 < |u.regs|
  {
    (u.regs[rs1] + offset) % Modulus(cfg.xlen)
  }

  /** Loads and stores that stay clear of the frame where they are executed are among the instructions meant. */
  lemma MemoryAccessBehaved(cfg: Cfg, kernelSp: int, rd: nat, rs1: nat, rs2: nat, offset: int, u: User)
    requires ValidUser(cfg, kernelSp, u) && 0 < rd < 32 && rd != cfg.tp && rs1 < 32 && rs2 < 32
    requires !InFrame(cfg, kernelSp, Address(cfg, u, rs1, offset))
    ensures Behaved(cfg, kernelSp, LoadWord(cfg, rd, rs1, offset), u)
    ensures Behaved(cfg, kernelSp, StoreWord(cfg, rs2, rs1, offset), u)
  {
    var load, store := LoadWord(cfg, rd, rs1, offset), StoreWord(cfg, rs2, rs1, offset);
    var a := Address(cfg, u, rs1, offset);
    assert IsWord(cfg, u.mem(a)) && IsWord(cfg, u.regs[rs2]);
    assert ValidUser(cfg, kernelSp, load(u));
    assert ValidUser(cfg, kernelSp, store(u));
    forall v | SameUser(cfg, kernelSp, u, v)
      ensures SameUser(cfg, kernelSp, load(u), load(v)) && SameUser(cfg, kernelSp, store(u), store(v))
    {
      assert u.mem(a) == v.mem(a);
    }
  }

  /** Exchange a register with mscratch, as `csrrw` does. */
  function SwapScratch(cfg: Cfg, rd: nat, rs1: nat): User -> User
    requires rd < 32 && rs1 < 32
  {
    (u: User) =>
      if |u.regs| != 32 then u
      else u.(pc := After(cfg, u.pc), regs := if rd == 0 then u.regs else u.regs[rd := u.csrs.mscratch],
              csrs := u.csrs.(mscratch := u.regs[rs1]))
  }

  /** A program may write mscratch, but what it reads there gives the traps away. */
  lemma ScratchAccessVerdict(cfg: Cfg, kernelSp: int, rd: nat, rs1: nat, u: User)
    requires ValidUser(cfg, kernelSp, u) && rd < 32 && rd != cfg.tp && rs1 < 32
    ensures Behaved(cfg, kernelSp, SwapScratch(cfg, rd, rs1), u) <==> rd == 0
  {
    var f := SwapScratch(cfg, rd, rs1);
    if rd == 0 {
      assert ValidUser(cfg, kernelSp, f(u));
    } else {
      var v := u.(csrs := u.csrs.(mscratch := u.csrs.mscratch + 1));
      assert SameUser(cfg, kernelSp, u, v);
      assert f(u).regs[rd] != f(v).regs[rd];
    }
  }

  /** One event on the hart, with traps handled by the generated code. */
  ghost function RealStep(cfg: Cfg, e: Event, pc: int, h: Hart): (int, Hart)
    requires LegalCfg(cfg) && ValidHart(cfg, h) && IsWord(cfg, pc)
  {
    match e
    case Ordinary(f) =>
      var u := f(View(pc, h));
      (u.pc, Placed(u))
    case Illegal =>
      var t := TrapEntry(h, pc, CAUSE_ILLEGAL_INSTRUCTION);
      TrapVerdict(cfg, t);
      var g := HandleTrap(cfg, t).st;
      (g.mepc, g)
  }

  /** The same event as the program's author thinks of it: an illegal instruction is skipped. */
  ghost function IdealStep(cfg: Cfg, e: Event, u: User): User {
    match e
    case Ordinary(f) => f(u)
    case Illegal => u.(pc := (u.pc + 4) % Modulus(cfg.xlen))
  }

  lemma TrapAgrees(cfg: Cfg, kernelSp: int, pc: int, h: Hart) returns (g: Hart)
    requires LegalCfg(cfg) && cfg.scratchImplemented && ValidAt(cfg, kernelSp, pc, h)
    ensures RealStep(cfg, Illegal, pc, h) == (g.mepc, g)
    ensures g.mepc == After(cfg, pc) && g.regs == h.regs && SameOutside(cfg, kernelSp, g.mem, h.mem)
    ensures ValidHart(cfg, g)
  {
    var t := TrapEntry(h, pc, CAUSE_ILLEGAL_INSTRUCTION);
    assert ValidHart(cfg, t);
    HandledIllegal(cfg, t);
    g := HandleTrap(cfg, t).st;
    assert FrameTop(cfg, t) == kernelSp;
  }

  lemma HandledIllegal(cfg: Cfg, t: Hart)
    requires LegalCfg(cfg) && ValidHart(cfg, t) && t.mcause == CAUSE_ILLEGAL_INSTRUCTION
    ensures EncodableHandlers(cfg) && EncodableAll(IllegalCode(cfg)) && EntryOf(cfg, t.mcause) <= |TvecCode(cfg)|
    ensures var g := HandleTrap(cfg, t).st;
            && g.mepc == After(cfg, t.mepc) && g.regs == t.regs && SameOutside(cfg, FrameTop(cfg, t), g.mem, t.mem)
            && ValidHart(cfg, g)
  {
    IllegalReturns(cfg, t);
    ReturnedHart(cfg, t, HandleTrap(cfg, t).st);
  }

  lemma ReturnedHart(cfg: Cfg, t: Hart, g: Hart)
    requires LegalCfg(cfg) && ValidHart(cfg, t) && g.regs == t.regs && g.mepc == After(cfg, t.mepc)
    requires g.mscratch == (if cfg.scratchImplemented then FrameTop(cfg, t) else t.mscratch)
    requires g.mcause == t.mcause && g.mtval == t.mtval && g.mstatus == t.mstatus
    requires Saved(cfg, FrameTop(cfg, t), 1, SavedRegs(cfg, t), t.mem, g.mem)
    ensures SameOutside(cfg, FrameTop(cfg, t), g.mem, t.mem) && ValidHart(cfg, g)
  {
    SavedWords(cfg, t, g);
    assert IsWord(cfg, FrameTop(cfg, t));
  }

  lemma OrdinaryAgrees(cfg: Cfg, kernelSp: int, f: User -> User, pc: int, h: Hart, u: User)
    requires LegalCfg(cfg) && ValidAt(cfg, kernelSp, pc, h)
    requires SameUser(cfg, kernelSp, View(pc, h), u) && Behaved(cfg, kernelSp, f, View(pc, h))
    ensures var p := RealStep(cfg, Ordinary(f), pc, h);
            ValidAt(cfg, kernelSp, p.0, p.1) && SameUser(cfg, kernelSp, View(p.0, p.1), f(u))
  {
    var v := f(View(pc, h));
    assert SameUser(cfg, kernelSp, v, f(u));
    assert ValidUser(cfg, kernelSp, v);
    assert View(v.pc, Placed(v)) == v;
  }

  lemma StepAgrees(cfg: Cfg, kernelSp: int, e: Event, pc: int, h: Hart, u: User)
    requires LegalCfg(cfg) && cfg.scratchImplemented && ValidAt(cfg, kernelSp, pc, h)
    requires SameUser(cfg, kernelSp, View(pc, h), u) && (e.Ordinary? ==> Behaved(cfg, kernelSp, e.f, View(pc, h)))
    ensures var p := RealStep(cfg, e, pc, h);
            && ValidAt(cfg, kernelSp, p.0, p.1)
            && SameUser(cfg, kernelSp, View(p.0, p.1), IdealStep(cfg, e, u))
  {
    if e.Ordinary? {
      OrdinaryAgrees(cfg, kernelSp, e.f, pc, h, u);
    } else {
      IllegalAgrees(cfg, kernelSp, pc, h, u);
    }
  }

  lemma IllegalAgrees(cfg: Cfg, kernelSp: int, pc: int, h: Hart, u: User)
    requires LegalCfg(cfg) && cfg.scratchImplemented && ValidAt(cfg, kernelSp, pc, h)
    requires SameUser(cfg, kernelSp, View(pc, h), u)
    ensures var p := RealStep(cfg, Illegal, pc, h);
            && ValidAt(cfg, kernelSp, p.0, p.1)
            && SameUser(cfg, kernelSp, View(p.0, p.1), IdealStep(cfg, Illegal, u))
  {
    var g := TrapAgrees(cfg, kernelSp, pc, h);
    SkippedAgrees(cfg, kernelSp, pc, h, g, u);
  }

  lemma SkippedAgrees(cfg: Cfg, kernelSp: int, pc: int, h: Hart, g: Hart, u: User)
    requires LegalCfg(cfg) && ValidAt(cfg, kernelSp, pc, h) && ValidHart(cfg, g)
    requires g.mepc == After(cfg, pc) && g.regs == h.regs && SameOutside(cfg, kernelSp, g.mem, h.mem)
    requires SameUser(cfg, kernelSp, View(pc, h), u)
    ensures ValidAt(cfg, kernelSp, g.mepc, g)
    ensures SameUser(cfg, kernelSp, View(g.mepc, g), IdealStep(cfg, Illegal, u))
  {
    assert ValidUser(cfg, kernelSp, View(g.mepc, g));
    SameThrough(cfg, kernelSp, g.mem, h.mem, u.mem);
  }

  lemma SameThrough(cfg: Cfg, kernelSp: int, l: int -> int, m: int -> int, n: int -> int)
    requires LegalCfg(cfg) && SameOutside(cfg, kernelSp, l, m) && SameOutside(cfg, kernelSp, m, n)
    ensures SameOutside(cfg, kernelSp, l, n)
  {
    forall a | !InFrame(cfg, kernelSp, a)
      ensures l(a) == n(a)
    {
      assert l(a) == m(a);
    }
  }

  lemma SavedWords(cfg: Cfg, h: Hart, g: Hart)
    requires LegalCfg(cfg) && ValidHart(cfg, h)
    requires Saved(cfg, FrameTop(cfg, h), 1, SavedRegs(cfg, h), h.mem, g.mem)
    ensures forall a {:trigger g.mem(a)} :: IsWord(cfg, g.mem(a))
    ensures SameOutside(cfg, FrameTop(cfg, h), g.mem, h.mem)
  {
    forall a
      ensures IsWord(cfg, g.mem(a))
    {
      if i: nat :| 1 <= i < 32 && SlotAddr(cfg, FrameTop(cfg, h), i) == a {
        assert g.mem(SlotAddr(cfg, FrameTop(cfg, h), i)) == SavedRegs(cfg, h)[i];
      } else {
        assert g.mem(a) == h.mem(a);
      }
    }
  }

  ghost function IdealRun(cfg: Cfg, events: seq<Event>, u: User): User {
    if events == [] then u
    else IdealStep(cfg, events[|events| - 1], IdealRun(cfg, events[..|events| - 1], u))
  }

  /** A run on the hart: the places and harts it passes through. */
  ghost predicate IsRealRun(cfg: Cfg, kernelSp: int, events: seq<Event>, pcs: seq<int>, harts: seq<Hart>) {
    && LegalCfg(cfg)
    && |pcs| == |harts| == |events| + 1
    && ValidAt(cfg, kernelSp, pcs[0], harts[0])
    && forall i :: 0 <= i < |events| ==>
         ValidHart(cfg, harts[i]) && IsWord(cfg, pcs[i]) &&
         RealStep(cfg, events[i], pcs[i], harts[i]) == (pcs[i + 1], harts[i + 1])
  }

  /**
   * A program that takes any number of illegal-instruction traps, anywhere, ends each step with the program
   * counter, the registers and the memory outside the kernel stack frame of the run in which each such
   * instruction is just skipped, and with tp still holding the kernel stack pointer.
   */
  lemma {:induction false} TrapsInvisible(cfg: Cfg, kernelSp: int, events: seq<Event>, pcs: seq<int>,
                                          harts: seq<Hart>, n: nat)
    requires LegalCfg(cfg) && cfg.scratchImplemented && IsRealRun(cfg, kernelSp, events, pcs, harts) && n <= |events|
    requires forall i :: 0 <= i < n && events[i].Ordinary? ==>
      Behaved(cfg, kernelSp, events[i].f, View(pcs[i], harts[i]))
    ensures ValidAt(cfg, kernelSp, pcs[n], harts[n])
    ensures harts[n].regs[cfg.tp] == kernelSp
    ensures SameUser(cfg, kernelSp, View(pcs[n], harts[n]), IdealRun(cfg, events[..n], View(pcs[0], harts[0])))
  {
    if n == 0 {
    } else {
      TrapsInvisible(cfg, kernelSp, events, pcs, harts, n - 1);
      assert events[..n][..n - 1] == events[..n - 1];
      var u := IdealRun(cfg, events[..n - 1], View(pcs[0], harts[0]));
      StepAgrees(cfg, kernelSp, events[n - 1], pcs[n - 1], harts[n - 1], u);
      assert RealStep(cfg, events[n - 1], pcs[n - 1], harts[n - 1]) == (pcs[n - 1 + 1], harts[n - 1 + 1]);
    }
  }
}
