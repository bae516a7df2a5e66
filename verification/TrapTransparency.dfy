/** Traps on illegal instructions are invisible to the program that takes them. */
module TrapTransparency {
  import opened Words
  import opened TrapCode
  import opened TrapMachine

  // ---------------------------------------------------------------- the stack frame

  /** Where the frame ends: the kernel stack pointer in tp, or sp where there is no scratch register. */
  function FrameTop(cfg: Cfg, h: Hart): int
    requires |h.regs| == 32 && LegalCfg(cfg)
  {
    if cfg.scratchImplemented then h.regs[cfg.tp] else h.regs[cfg.sp]
  }

  function FrameBase(cfg: Cfg, top: int): int {
    (top - 31 * WordBytes(cfg)) % Modulus(cfg.xlen)
  }

  /** Where register `i` is saved. */
  function SlotAddr(cfg: Cfg, top: int, i: nat): int {
    (FrameBase(cfg, top) + i * WordBytes(cfg)) % Modulus(cfg.xlen)
  }

  predicate InFrame(cfg: Cfg, top: int, a: int) {
    exists i: nat :: 1 <= i < 32 && SlotAddr(cfg, top, i) == a
  }

  lemma SlotsDistinct(cfg: Cfg, top: int, i: nat, j: nat)
    requires LegalCfg(cfg) && 1 <= i < 32 && 1 <= j < 32 && i != j
    ensures SlotAddr(cfg, top, i) != SlotAddr(cfg, top, j)
  {
    var b, w, m := FrameBase(cfg, top), WordBytes(cfg), Modulus(cfg.xlen);
    assert w == 4 || w == 8;
    WrapAdd(m, b, i * w);
    WrapAdd(m, b, j * w);
  }

  lemma WrapAdd(m: int, b: int, d: int)
    requires 0 <= b < m && 0 <= d < m
    ensures (b + d) % m == if b + d < m then b + d else b + d - m
  {
  }

  /** The frame in bytes: register `i` is saved `4 * (31 - i)` below its top, or twice that on a 64-bit hart. */
  lemma SlotAddress(cfg: Cfg, top: int, i: nat)
    requires LegalCfg(cfg) && IsWord(cfg, top) && 1 <= i < 32
    ensures cfg.xlen == 32 ==> SlotAddr(cfg, top, i) == (top - 4 * (31 - i)) % 0x1_0000_0000
    ensures cfg.xlen == 64 ==> SlotAddr(cfg, top, i) == (top - 8 * (31 - i)) % 0x1_0000_0000_0000_0000
  {
    var w := WordBytes(cfg);
    SlotOffset(w, i);
    WrapTwice(Modulus(cfg.xlen), top - 31 * w, i * w);
  }

  lemma WrapTwice(m: int, x: int, d: int)
    requires -m <= x && 0 <= d < m && -m <= x + d < m
    ensures (x % m + d) % m == (x + d) % m
  {
    Wrapped(m, x);
    Wrapped(m, x + d);
    WrapAdd(m, x % m, d);
  }

  lemma Wrapped(m: int, x: int)
    requires -m <= x < m
    ensures x % m == if x < 0 then x + m else x
  {
    if x < 0 {
      assert x % m == (x + m) % m;
    }
  }

  lemma SlotOffset(w: nat, i: nat)
    requires w == 4 || w == 8
    ensures i * w - 31 * w == -(w * (31 - i))
  {
  }

  /** `after` is `before` with registers `k` and up put in their slots, and nothing else changed. */
  ghost predicate Saved(cfg: Cfg, top: int, k: nat, regs: seq<int>, before: int -> int, after: int -> int)
    requires |regs| == 32
  {
    && (forall i: nat :: k <= i < 32 ==> after(SlotAddr(cfg, top, i)) == regs[i])
    && (forall a :: (forall i: nat :: k <= i < 32 ==> SlotAddr(cfg, top, i) != a) ==> after(a) == before(a))
  }

  lemma SavedStep(cfg: Cfg, top: int, k: nat, regs: seq<int>, before: int -> int, after: int -> int)
    requires LegalCfg(cfg) && |regs| == 32 && 1 <= k < 32
    requires Saved(cfg, top, k + 1, regs, Write(before, SlotAddr(cfg, top, k), regs[k]), after)
    ensures Saved(cfg, top, k, regs, before, after)
  {
    var slot := SlotAddr(cfg, top, k);
    forall j: nat | k < j < 32
      ensures SlotAddr(cfg, top, j) != slot
    {
      SlotsDistinct(cfg, top, k, j);
    }
    assert after(slot) == regs[k];
  }

  lemma OffsetEncodable(cfg: Cfg, k: nat)
    requires LegalCfg(cfg) && k < 32
    ensures 0 <= k * WordBytes(cfg) < 2048
  {
    assert WordBytes(cfg) == 4 || WordBytes(cfg) == 8;
  }

  lemma {:induction false} StoresRun(cfg: Cfg, h: Hart, top: int, k: nat)
    requires LegalCfg(cfg) && |h.regs| == 32 && 1 <= k <= 32
    requires h.regs[cfg.sp] == FrameBase(cfg, top)
    ensures EncodableAll(StoresFrom(cfg, k))
    ensures var o := Exec(cfg, StoresFrom(cfg, k), h);
            o.Fell? && o.st == h.(mem := o.st.mem) && Saved(cfg, top, k, h.regs, h.mem, o.st.mem)
    decreases 32 - k
  {
    if k == 32 {
    } else {
      var store, rest := Store(k, k * WordBytes(cfg), cfg.sp), StoresFrom(cfg, k + 1);
      OffsetEncodable(cfg, k);
      var h' := h.(mem := Write(h.mem, SlotAddr(cfg, top, k), h.regs[k]));
      assert Step(cfg, store, h) == Fell(h');
      StoresRun(cfg, h', top, k + 1);
      ExecCons(cfg, store, rest, h);
      SavedStep(cfg, top, k, h.regs, h.mem, Exec(cfg, rest, h').st.mem);
    }
  }

  /** Loading the frame back; sp itself is reloaded with its own value. */
  lemma {:induction false} LoadsRun(cfg: Cfg, h: Hart, top: int, k: nat, saved: seq<int>)
    requires LegalCfg(cfg) && |h.regs| == |saved| == 32 && 1 <= k <= 32
    requires h.regs[cfg.sp] == saved[cfg.sp] == FrameBase(cfg, top)
    requires forall i: nat :: k <= i < 32 ==> h.mem(SlotAddr(cfg, top, i)) == saved[i]
    ensures EncodableAll(LoadsFrom(cfg, k))
    ensures Exec(cfg, LoadsFrom(cfg, k), h) == Fell(h.(regs := h.regs[..k] + saved[k..]))
    decreases 32 - k
  {
    if k == 32 {
      assert h.regs[..k] + saved[k..] == h.regs;
    } else {
      var load, rest := Load(k, k * WordBytes(cfg), cfg.sp), LoadsFrom(cfg, k + 1);
      OffsetEncodable(cfg, k);
      var h' := h.(regs := h.regs[k := saved[k]]);
      assert Step(cfg, load, h) == Fell(h');
      LoadsRun(cfg, h', top, k + 1, saved);
      ExecCons(cfg, load, rest, h);
      OneMoreLoaded(h.regs, saved, k);
    }
  }

  lemma OneMoreLoaded(regs: seq<int>, saved: seq<int>, k: nat)
    requires k < |regs| == |saved|
    ensures regs[k := saved[k]][..k + 1] + saved[k + 1..] == regs[..k] + saved[k..]
  {
  }

  // ---------------------------------------------------------------- entering and leaving

  /** The registers as the frame holds them: the program's, with sp already pointing at the frame. */
  function SavedRegs(cfg: Cfg, h: Hart): (r: seq<int>)
    requires |h.regs| == 32 && LegalCfg(cfg)
    ensures |r| == 32
  {
    h.regs[cfg.sp := FrameBase(cfg, FrameTop(cfg, h))]
  }

  function ScratchInside(cfg: Cfg, h: Hart): int
    requires |h.regs| == 32 && LegalCfg(cfg)
  {
    if cfg.scratchImplemented then h.regs[cfg.sp] else h.mscratch
  }

  /** `g` is inside the handler of a trap taken in `h`: everything of `h` is in the frame or untouched. */
  ghost predicate Inside(cfg: Cfg, h: Hart, g: Hart)
    requires |h.regs| == 32 && LegalCfg(cfg)
  {
    && |g.regs| == 32 && g.regs[0] == h.regs[0]
    && g.regs[cfg.sp] == FrameBase(cfg, FrameTop(cfg, h))
    && Saved(cfg, FrameTop(cfg, h), 1, SavedRegs(cfg, h), h.mem, g.mem)
    && g.mscratch == ScratchInside(cfg, h)
    && g.mepc == h.mepc && g.mcause == h.mcause && g.mtval == h.mtval && g.mstatus == h.mstatus
  }

  /** After the swap sp holds the frame's top; the frame is then opened below it. */
  lemma SwapRun(cfg: Cfg, h: Hart)
    requires LegalCfg(cfg) && ValidHart(cfg, h)
    ensures EncodableAll(EnterKernelStack(cfg))
    ensures Exec(cfg, EnterKernelStack(cfg), h) ==
            Fell(h.(regs := h.regs[cfg.sp := FrameTop(cfg, h)], mscratch := ScratchInside(cfg, h)))
  {
    if cfg.scratchImplemented {
      var swap, move := Csrrw(cfg.sp, MSCRATCH, cfg.sp), Add(cfg.sp, cfg.tp, ZERO);
      var h1 := h.(regs := h.regs[cfg.sp := h.mscratch], mscratch := h.regs[cfg.sp]);
      var h2 := h1.(regs := h.regs[cfg.sp := h.regs[cfg.tp]]);
      assert Step(cfg, swap, h) == Fell(h1);
      assert Step(cfg, move, h1) == Fell(h2) by {
        assert IsWord(cfg, h.regs[cfg.tp]);
        assert h1.regs[cfg.sp := h.regs[cfg.tp]] == h2.regs;
      }
      ExecCons(cfg, move, [], h1);
      ExecCons(cfg, swap, [move], h);
      assert [move] + [] == [move] && [swap] + [move] == EnterKernelStack(cfg);
    } else {
      assert h.regs[cfg.sp := h.regs[cfg.sp]] == h.regs;
    }
  }

  lemma OpenFrameRun(cfg: Cfg, h: Hart)
    requires LegalCfg(cfg) && ValidHart(cfg, h)
    ensures var down := [Addi(cfg.sp, cfg.sp, -(31 * WordBytes(cfg)))];
            && EncodableAll(down)
            && Exec(cfg, down, h.(regs := h.regs[cfg.sp := FrameTop(cfg, h)], mscratch := ScratchInside(cfg, h))) ==
               Fell(h.(regs := SavedRegs(cfg, h), mscratch := ScratchInside(cfg, h)))
  {
    OffsetEncodable(cfg, 31);
    var down := Addi(cfg.sp, cfg.sp, -(31 * WordBytes(cfg)));
    var h1 := h.(regs := h.regs[cfg.sp := FrameTop(cfg, h)], mscratch := ScratchInside(cfg, h));
    var h2 := h.(regs := SavedRegs(cfg, h), mscratch := ScratchInside(cfg, h));
    assert Step(cfg, down, h1) == Fell(h2) by {
      assert h1.regs[cfg.sp := FrameBase(cfg, FrameTop(cfg, h))] == h2.regs;
    }
    ExecCons(cfg, down, [], h1);
    assert [down] + [] == [down];
  }

  /** The hart with the frame open and nothing stored yet. */
  function Entered(cfg: Cfg, h: Hart): (g: Hart)
    requires |h.regs| == 32 && LegalCfg(cfg)
    ensures |g.regs| == 32
  {
    h.(regs := SavedRegs(cfg, h), mscratch := ScratchInside(cfg, h))
  }

  lemma EnterRun(cfg: Cfg, h: Hart)
    requires LegalCfg(cfg) && ValidHart(cfg, h)
    ensures EncodableAll(OpenFrame(cfg)) && Exec(cfg, OpenFrame(cfg), h) == Fell(Entered(cfg, h))
  {
    SwapRun(cfg, h);
    OpenFrameRun(cfg, h);
    ExecConcat(cfg, EnterKernelStack(cfg), [Addi(cfg.sp, cfg.sp, -(31 * WordBytes(cfg)))], h);
  }

  lemma PushSplits(cfg: Cfg, h: Hart)
    requires LegalCfg(cfg) && ValidHart(cfg, h) && EncodableAll(StoresFrom(cfg, 1))
    ensures EncodableAll(PushCode(cfg))
    ensures Exec(cfg, PushCode(cfg), h) == Exec(cfg, StoresFrom(cfg, 1), Entered(cfg, h))
  {
    EnterRun(cfg, h);
    ExecConcat(cfg, OpenFrame(cfg), StoresFrom(cfg, 1), h);
  }

  /** Once the stores are done, everything of `h` is in the frame or untouched. */
  lemma StoresInside(cfg: Cfg, h: Hart)
    requires LegalCfg(cfg) && ValidHart(cfg, h)
    ensures EncodableAll(StoresFrom(cfg, 1))
    ensures var o := Exec(cfg, StoresFrom(cfg, 1), Entered(cfg, h)); o.Fell? && Inside(cfg, h, o.st)
  {
    StoresRun(cfg, Entered(cfg, h), FrameTop(cfg, h), 1);
  }

  lemma PushRun(cfg: Cfg, h: Hart)
    requires LegalCfg(cfg) && ValidHart(cfg, h)
    ensures EncodableAll(PushCode(cfg))
    ensures var o := Exec(cfg, PushCode(cfg), h);
            o.Fell? && Inside(cfg, h, o.st)
  {
    StoresInside(cfg, h);
    PushSplits(cfg, h);
  }

  lemma FrameCloses(cfg: Cfg, top: int)
    requires LegalCfg(cfg) && IsWord(cfg, top)
    ensures (FrameBase(cfg, top) + 31 * WordBytes(cfg)) % Modulus(cfg.xlen) == top
  {
  }

  lemma CloseFrameRun(cfg: Cfg, h: Hart, g: Hart)
    requires LegalCfg(cfg) && ValidHart(cfg, h) && g.regs == SavedRegs(cfg, h)
    ensures var up := [Addi(cfg.sp, cfg.sp, 31 * WordBytes(cfg))];
            && EncodableAll(up)
            && Exec(cfg, up, g) == Fell(g.(regs := h.regs[cfg.sp := FrameTop(cfg, h)]))
  {
    OffsetEncodable(cfg, 31);
    var up, top := Addi(cfg.sp, cfg.sp, 31 * WordBytes(cfg)), FrameTop(cfg, h);
    assert IsWord(cfg, top);
    FrameCloses(cfg, top);
    var g1 := g.(regs := h.regs[cfg.sp := top]);
    assert Step(cfg, up, g) == Fell(g1) by {
      assert g.regs[cfg.sp := top] == g1.regs;
    }
    ExecCons(cfg, up, [], g);
    assert [up] + [] == [up];
  }

  /** tp gets the frame's top, which it held all along; sp is swapped back for the program's own. */
  lemma SwapBackRun(cfg: Cfg, h: Hart, g: Hart)
    requires LegalCfg(cfg) && ValidHart(cfg, h)
    requires g.regs == h.regs[cfg.sp := FrameTop(cfg, h)] && g.mscratch == ScratchInside(cfg, h)
    ensures EncodableAll(LeaveKernelStack(cfg))
    ensures Exec(cfg, LeaveKernelStack(cfg), g) ==
            Fell(g.(regs := h.regs, mscratch := if cfg.scratchImplemented then FrameTop(cfg, h) else h.mscratch))
  {
    if cfg.scratchImplemented {
      var top := FrameTop(cfg, h);
      var move, back := Add(cfg.tp, cfg.sp, ZERO), Csrrw(cfg.sp, MSCRATCH, cfg.sp);
      assert Step(cfg, move, g) == Fell(g) by {
        assert IsWord(cfg, top) && g.regs[0] == 0;
        assert g.regs[cfg.tp := top] == g.regs;
      }
      var last := g.(regs := h.regs, mscratch := top);
      assert Step(cfg, back, g) == Fell(last) by {
        assert g.regs[cfg.sp := h.regs[cfg.sp]] == h.regs;
      }
      ExecCons(cfg, back, [], g);
      ExecCons(cfg, move, [back], g);
      assert [back] + [] == [back] && [move] + [back] == LeaveKernelStack(cfg);
    } else {
      assert h.regs[cfg.sp := h.regs[cfg.sp]] == h.regs;
    }
  }

  /** The pop puts every register back, and leaves the frame's top in the scratch register. */
  lemma PopRun(cfg: Cfg, h: Hart, g: Hart)
    requires LegalCfg(cfg) && ValidHart(cfg, h) && |g.regs| == 32 && g.regs[0] == h.regs[0]
    requires g.regs[cfg.sp] == FrameBase(cfg, FrameTop(cfg, h)) && g.mscratch == ScratchInside(cfg, h)
    requires Saved(cfg, FrameTop(cfg, h), 1, SavedRegs(cfg, h), h.mem, g.mem)
    ensures EncodableAll(PopCode(cfg))
    ensures Exec(cfg, PopCode(cfg), g) ==
            Fell(g.(regs := h.regs, mscratch := if cfg.scratchImplemented then FrameTop(cfg, h) else h.mscratch))
  {
    var up, saved := [Addi(cfg.sp, cfg.sp, 31 * WordBytes(cfg))], SavedRegs(cfg, h);
    LoadsRun(cfg, g, FrameTop(cfg, h), 1, saved);
    assert g.regs[..1] + saved[1..] == saved;
    var g1 := g.(regs := saved);
    CloseFrameRun(cfg, h, g1);
    ExecConcat(cfg, LoadsFrom(cfg, 1), up, g);
    var g2 := g1.(regs := h.regs[cfg.sp := FrameTop(cfg, h)]);
    assert Exec(cfg, LoadsFrom(cfg, 1) + up, g) == Fell(g2);
    SwapBackRun(cfg, h, g2);
    ExecConcat(cfg, LoadsFrom(cfg, 1) + up, LeaveKernelStack(cfg), g);
  }
}
