/** How every generated CSR test ends on a hart that follows the description it was generated from. */
module CsrVerdict {
  import opened Bits
  import opened Hex
  import opened CsrMap
  import opened Zicsr
  import opened CsrTest
  import opened CsrSelfCheck

  // ---------------------------------------------------------------- one CSR

  /** The hart lays this CSR out as described, and it may be written. */
  ghost predicate Implements(h: Hart, d: CsrDesc) {
    d.address in h.spec && h.spec[d.address] == d.fields
  }

  ghost predicate TestRegs(src: nat, dst: nat) {
    1 <= src < 16 && 1 <= dst < 16 && src != dst
  }

  /** The hart writes with access `i`, or the model does not move with it. */
  ghost predicate SyncAt(c: Csr, xlen: nat, items: seq<Item>, i: nat)
    requires ValidCsr(c, xlen) && ValidItems(items, xlen) && i < |items|
  {
    Suppressed(items[i]) ==> ModelValue(c, xlen, items[..i + 1]) == ModelValue(c, xlen, items[..i])
  }

  ghost predicate SyncBelow(c: Csr, xlen: nat, items: seq<Item>, n: nat)
    requires ValidCsr(c, xlen) && ValidItems(items, xlen) && n <= |items|
  {
    forall i :: 0 <= i < n ==> SyncAt(c, xlen, items, i)
  }

  /** So it is for each access, the very last excepted. */
  ghost predicate InSync(c: Csr, xlen: nat, items: seq<Item>)
    requires ValidCsr(c, xlen) && ValidItems(items, xlen)
  {
    items != [] ==> SyncBelow(c, xlen, items, |items| - 1)
  }

  /** What the hart holds after the items when every check has gone well. */
  function HartValue(c: Csr, xlen: nat, items: seq<Item>): BitString
    requires ValidCsr(c, xlen) && ValidItems(items, xlen)
  {
    if items != [] && Suppressed(items[|items| - 1]) then ModelValue(c, xlen, items[..|items| - 1])
    else ModelValue(c, xlen, items)
  }

  lemma {:induction false} ModelWithinMask(c: Csr, d: CsrDesc, xlen: nat, items: seq<Item>)
    requires Described(c, d, xlen) && ValidItems(items, xlen)
    ensures WithinMask(ModelValue(c, xlen, items), c.readMask)
  {
    if items == [] {
      ResetWithinMask(d.fields, xlen);
    } else {
      var front := items[..|items| - 1];
      ModelWithinMask(c, d, xlen, front);
      ModelFollowsHart(c, d, xlen, items[|items| - 1], ModelValue(c, xlen, front));
    }
  }

  lemma SyncAtFront(c: Csr, xlen: nat, items: seq<Item>, n: nat, i: nat)
    requires ValidCsr(c, xlen) && ValidItems(items, xlen) && i < n <= |items|
    ensures SyncAt(c, xlen, items[..n], i) <==> SyncAt(c, xlen, items, i)
  {
    assert items[..n][..i] == items[..i] && items[..n][..i + 1] == items[..i + 1];
  }

  lemma SyncBelowFront(c: Csr, xlen: nat, items: seq<Item>, m: nat, n: nat)
    requires ValidCsr(c, xlen) && ValidItems(items, xlen) && m <= n <= |items|
    ensures SyncBelow(c, xlen, items[..n], m) <==> SyncBelow(c, xlen, items, m)
  {
    forall i: nat | i < m
      ensures SyncAt(c, xlen, items[..n], i) <==> SyncAt(c, xlen, items, i)
    {
      SyncAtFront(c, xlen, items, n, i);
    }
  }

  lemma SyncBelowSnoc(c: Csr, xlen: nat, items: seq<Item>, n: nat)
    requires ValidCsr(c, xlen) && ValidItems(items, xlen) && n < |items|
    ensures SyncBelow(c, xlen, items, n + 1) <==> SyncBelow(c, xlen, items, n) && SyncAt(c, xlen, items, n)
  {
  }

  lemma InSyncSnoc(c: Csr, xlen: nat, items: seq<Item>)
    requires ValidCsr(c, xlen) && ValidItems(items, xlen) && items != []
    ensures var front := items[..|items| - 1];
            InSync(c, xlen, items) <==>
            InSync(c, xlen, front) && HartValue(c, xlen, front) == ModelValue(c, xlen, front)
  {
    var n := |items| - 1;
    if n > 0 {
      SyncBelowFront(c, xlen, items, n - 1, n);
      SyncBelowSnoc(c, xlen, items, n - 1);
      SyncAtFront(c, xlen, items, n, n - 1);
      LastSync(c, xlen, items[..n]);
      assert InSync(c, xlen, items[..n]) <==> SyncBelow(c, xlen, items, n - 1);
      assert InSync(c, xlen, items) <==> SyncBelow(c, xlen, items, n);
    }
  }

  lemma LastSync(c: Csr, xlen: nat, items: seq<Item>)
    requires ValidCsr(c, xlen) && ValidItems(items, xlen) && items != []
    ensures SyncAt(c, xlen, items, |items| - 1) <==> HartValue(c, xlen, items) == ModelValue(c, xlen, items)
  {
    assert items[..|items|] == items;
  }

  /** The last item, from a state in which the items before it have passed. */
  lemma LastItemRuns(h: Hart, c: Csr, d: CsrDesc, src: nat, dst: nat, items: seq<Item>, st: State)
    requires Described(c, d, h.xlen) && ValidHart(h) && ValidState(h, st) && Implements(h, d)
    requires !ReadOnlyAddress(d.address) && TestRegs(src, dst) && ValidItems(items, h.xlen) && items != []
    requires st.csrs[d.address] == HartValue(c, h.xlen, items[..|items| - 1])
    ensures var m := ModelValue(c, h.xlen, items[..|items| - 1]);
            var more := ItemCode(c, src, dst, items[|items| - 1], m);
            && WellFormedProgram(h, more)
            && var o := Run(h, more, st);
               if st.csrs[d.address] == m
               then o.Passed? && o.st.csrs == st.csrs[d.address := HartValue(c, h.xlen, items)]
               else o == Failed
  {
    var front, item := items[..|items| - 1], items[|items| - 1];
    var m := ModelValue(c, h.xlen, front);
    ModelWithinMask(c, d, h.xlen, front);
    ItemRuns(h, c, d, src, dst, item, m, st);
    ModelFollowsHart(c, d, h.xlen, item, m);
  }

  lemma UpdateTwice(m: map<nat, BitString>, a: nat, v: BitString, w: BitString)
    ensures m[a := v][a := w] == m[a := w]
  {
  }

  /** The exact verdict for one writable CSR. */
  lemma {:induction false} ItemsVerdict(h: Hart, c: Csr, d: CsrDesc, src: nat, dst: nat, items: seq<Item>, st: State)
    requires Described(c, d, h.xlen) && ValidHart(h) && ValidState(h, st) && Implements(h, d)
    requires !ReadOnlyAddress(d.address) && TestRegs(src, dst) && ValidItems(items, h.xlen)
    requires st.csrs[d.address] == c.value
    ensures var code := ItemsCode(c, h.xlen, src, dst, items);
            && WellFormedProgram(h, code)
            && var o := Run(h, code, st);
               if InSync(c, h.xlen, items)
               then o.Passed? && o.st.csrs == st.csrs[d.address := HartValue(c, h.xlen, items)]
               else o == Failed
  {
    if items == [] {
      assert st.csrs[d.address := c.value] == st.csrs;
    } else {
      var front, item := items[..|items| - 1], items[|items| - 1];
      ItemsVerdict(h, c, d, src, dst, front, st);
      InSyncSnoc(c, h.xlen, items);
      var code := ItemsCode(c, h.xlen, src, dst, front);
      var more := ItemCode(c, src, dst, item, ModelValue(c, h.xlen, front));
      ItemCodeWellFormed(h, c, d, src, dst, item, ModelValue(c, h.xlen, front));
      RunConcat(h, code, more, st);
      var o := Run(h, code, st);
      if o.Passed? {
        LastItemRuns(h, c, d, src, dst, items, o.st);
        UpdateTwice(st.csrs, d.address, HartValue(c, h.xlen, front), HartValue(c, h.xlen, items));
      }
    }
  }

  /** A read-only CSR traps at its first access when that access writes. */
  lemma {:induction false} ReadOnlyTraps(h: Hart, c: Csr, d: CsrDesc, src: nat, dst: nat, items: seq<Item>, st: State)
    requires Described(c, d, h.xlen) && ValidHart(h) && ValidState(h, st) && Implements(h, d)
    requires ReadOnlyAddress(d.address) && TestRegs(src, dst) && ValidItems(items, h.xlen)
    requires items != [] && !Suppressed(items[0])
    ensures var code := ItemsCode(c, h.xlen, src, dst, items);
            WellFormedProgram(h, code) && Run(h, code, st) == Trapped
  {
    var front, item := items[..|items| - 1], items[|items| - 1];
    var m := ModelValue(c, h.xlen, front);
    var code, more := ItemsCode(c, h.xlen, src, dst, front), ItemCode(c, src, dst, item, m);
    ItemCodeWellFormed(h, c, d, src, dst, item, m);
    if front == [] {
      assert code + more == more;
      FirstItemTraps(h, c, d, src, dst, item, m, st);
    } else {
      ReadOnlyTraps(h, c, d, src, dst, front, st);
      RunConcat(h, code, more, st);
    }
  }

  lemma ItemCodeWellFormed(h: Hart, c: Csr, d: CsrDesc, src: nat, dst: nat, item: Item, m: BitString)
    requires Described(c, d, h.xlen) && |m| == h.xlen && (item.Access? ==> |item.val| == h.xlen)
    ensures WellFormedProgram(h, ItemCode(c, src, dst, item, m))
  {
  }

  lemma FirstItemTraps(h: Hart, c: Csr, d: CsrDesc, src: nat, dst: nat, item: Item, m: BitString, st: State)
    requires Described(c, d, h.xlen) && ValidHart(h) && ValidState(h, st) && Implements(h, d)
    requires ReadOnlyAddress(d.address) && TestRegs(src, dst) && |m| == h.xlen
    requires (item.Access? ==> |item.val| == h.xlen) && !Suppressed(item)
    ensures var code := ItemCode(c, src, dst, item, m);
            WellFormedProgram(h, code) && Run(h, code, st) == Trapped
  {
    var code := ItemCode(c, src, dst, item, m);
    ItemCodeWellFormed(h, c, d, src, dst, item, m);
    if !IsImm(item.op) {
      var loaded := SetReg(st, src, item.val);
      assert Step(h, code[0], st) == Passed(loaded);
      assert Step(h, code[1], loaded) == Trapped;
      assert Run(h, code, st) == Run(h, code[1..], loaded);
      assert code[1..][0] == code[1];
    } else {
      assert Step(h, code[0], st) == Trapped;
    }
  }

  // ---------------------------------------------------------------- the whole program

  ghost predicate DescribedAll(csrs: seq<Csr>, descs: seq<CsrDesc>, xlen: nat) {
    && |csrs| == |descs|
    && xlen >= 32 && xlen % 8 == 0
    && (forall i :: 0 <= i < |csrs| ==> Described(csrs[i], descs[i], xlen))
    && (forall i, j :: 0 <= i < j < |descs| ==> descs[i].address != descs[j].address)
  }

  /** The hart has every described CSR, and each holds its reset value. */
  ghost predicate AtReset(h: Hart, csrs: seq<Csr>, descs: seq<CsrDesc>, st: State) {
    && ValidHart(h) && ValidState(h, st)
    && |csrs| == |descs|
    && forall i :: 0 <= i < |descs| ==> Implements(h, descs[i]) && st.csrs[descs[i].address] == csrs[i].value
  }

  /** What one CSR's share of the program needs to pass. */
  ghost predicate ShareOk(csrs: seq<Csr>, descs: seq<CsrDesc>, ops: seq<Op>, xlen: nat, draws: seq<seq<BitString>>,
                          i: nat)
    requires DescribedAll(csrs, descs, xlen) && i < |draws| <= |csrs| && ValidAllDraws(ops, draws)
  {
    ops == [] || (!ReadOnlyAddress(descs[i].address) && InSync(csrs[i], xlen, ItemsOf(csrs, ops, xlen, draws, i)))
  }

  lemma {:induction false} FirstAccess(ops: seq<Op>, xlen: nat, draws: seq<BitString>, lastCsr: bool)
    requires 0 < |draws| <= |ops| && ValidDraws(draws) && xlen >= 32 && xlen % 8 == 0
    ensures var items := CsrItems(ops, xlen, draws, lastCsr);
            items != [] && items[0] == Access(ops[0], Rs1Val(0, xlen, draws[0])) && !Suppressed(items[0])
  {
    var n := |draws| - 1;
    if n == 0 {
      assert draws[..0] == [];
    } else {
      FirstAccess(ops, xlen, draws[..n], lastCsr);
    }
    var v := Rs1Val(0, xlen, draws[0]);
    assert (xlen - 3) % 8 == 5;
    assert v[xlen - 3] == A5[(xlen - 3) % 8] && v[xlen - 3];
    assert v[xlen - 5..][2] == v[xlen - 3];
  }

  ghost predicate SharesOk(csrs: seq<Csr>, descs: seq<CsrDesc>, ops: seq<Op>, xlen: nat, draws: seq<seq<BitString>>)
    requires DescribedAll(csrs, descs, xlen) && |draws| <= |csrs| && ValidAllDraws(ops, draws)
  {
    forall i :: 0 <= i < |draws| ==> ShareOk(csrs, descs, ops, xlen, draws, i)
  }

  lemma SharesOkSnoc(csrs: seq<Csr>, descs: seq<CsrDesc>, ops: seq<Op>, xlen: nat, draws: seq<seq<BitString>>)
    requires DescribedAll(csrs, descs, xlen) && 0 < |draws| <= |csrs| && ValidAllDraws(ops, draws)
    ensures ValidAllDraws(ops, draws[..|draws| - 1])
    ensures SharesOk(csrs, descs, ops, xlen, draws) <==>
            && SharesOk(csrs, descs, ops, xlen, draws[..|draws| - 1])
            && ShareOk(csrs, descs, ops, xlen, draws, |draws| - 1)
  {
    var front := draws[..|draws| - 1];
    forall i: nat | i < |front|
      ensures ShareOk(csrs, descs, ops, xlen, front, i) <==> ShareOk(csrs, descs, ops, xlen, draws, i)
    {
      assert ItemsOf(csrs, ops, xlen, front, i) == ItemsOf(csrs, ops, xlen, draws, i);
    }
  }

  /** The CSRs from the `n`-th on still hold their reset values. */
  ghost predicate Untouched(csrs: seq<Csr>, descs: seq<CsrDesc>, n: nat, st: State)
    requires |csrs| == |descs|
  {
    forall i :: n <= i < |csrs| ==>
      descs[i].address in st.csrs && st.csrs[descs[i].address] == csrs[i].value
  }

  lemma {:induction false} ProgramVerdict(h: Hart, csrs: seq<Csr>, descs: seq<CsrDesc>, ops: seq<Op>, src: nat,
                                          dst: nat, draws: seq<seq<BitString>>, st: State)
    requires DescribedAll(csrs, descs, h.xlen) && AtReset(h, csrs, descs, st) && TestRegs(src, dst)
    requires |draws| <= |csrs| && ValidAllDraws(ops, draws)
    ensures ValidCsrs(csrs, h.xlen)
    ensures var code := Program(csrs, ops, h.xlen, src, dst, draws);
            && WellFormedProgram(h, code)
            && var o := Run(h, code, st);
               && (o.Passed? <==> SharesOk(csrs, descs, ops, h.xlen, draws))
               && (o.Passed? ==> ValidState(h, o.st) && Untouched(csrs, descs, |draws|, o.st))
  {
    if draws == [] {
    } else {
      var front := draws[..|draws| - 1];
      ProgramVerdict(h, csrs, descs, ops, src, dst, front, st);
      SharesOkSnoc(csrs, descs, ops, h.xlen, draws);
      var o := Run(h, Program(csrs, ops, h.xlen, src, dst, front), st);
      NextShare(h, csrs, descs, ops, src, dst, draws, |front|, if o.Passed? then o.st else st);
      RunConcat(h, Program(csrs, ops, h.xlen, src, dst, front),
                ItemsCode(csrs[|front|], h.xlen, src, dst, ItemsOf(csrs, ops, h.xlen, draws, |front|)), st);
    }
  }

  /** A share leaves the CSRs after it untouched. */
  lemma NextShare(h: Hart, csrs: seq<Csr>, descs: seq<CsrDesc>, ops: seq<Op>, src: nat, dst: nat,
                  draws: seq<seq<BitString>>, n: nat, st: State)
    requires DescribedAll(csrs, descs, h.xlen) && ValidHart(h) && ValidState(h, st) && TestRegs(src, dst)
    requires n < |draws| <= |csrs| && ValidAllDraws(ops, draws)
    requires Implements(h, descs[n]) && Untouched(csrs, descs, n, st)
    ensures var code := ItemsCode(csrs[n], h.xlen, src, dst, ItemsOf(csrs, ops, h.xlen, draws, n));
            && WellFormedProgram(h, code)
            && var o := Run(h, code, st);
               && (o.Passed? <==> ShareOk(csrs, descs, ops, h.xlen, draws, n))
               && (o.Passed? ==> Untouched(csrs, descs, n + 1, o.st))
  {
    ShareRuns(h, csrs, descs, ops, src, dst, draws, n, st);
  }

  /** One CSR's share of the program, from a state in which that CSR is at reset. */
  lemma ShareRuns(h: Hart, csrs: seq<Csr>, descs: seq<CsrDesc>, ops: seq<Op>, src: nat, dst: nat,
                  draws: seq<seq<BitString>>, n: nat, st: State)
    requires DescribedAll(csrs, descs, h.xlen) && ValidHart(h) && ValidState(h, st) && TestRegs(src, dst)
    requires n < |draws| <= |csrs| && ValidAllDraws(ops, draws)
    requires Implements(h, descs[n]) && st.csrs[descs[n].address] == csrs[n].value
    ensures var code := ItemsCode(csrs[n], h.xlen, src, dst, ItemsOf(csrs, ops, h.xlen, draws, n));
            && WellFormedProgram(h, code)
            && var o := Run(h, code, st);
               && (o.Passed? <==> ShareOk(csrs, descs, ops, h.xlen, draws, n))
               && (o.Passed? ==> forall a :: a in st.csrs && a != descs[n].address ==>
                     a in o.st.csrs && o.st.csrs[a] == st.csrs[a])
  {
    var items := ItemsOf(csrs, ops, h.xlen, draws, n);
    if ops == [] {
      assert draws[n] == [];
    } else {
      FirstAccess(ops, h.xlen, draws[n], n == |csrs| - 1);
      if ReadOnlyAddress(descs[n].address) {
        ReadOnlyTraps(h, csrs[n], descs[n], src, dst, items, st);
      } else {
        ItemsVerdict(h, csrs[n], descs[n], src, dst, items, st);
      }
    }
  }

  /**
   * Exactly when a generated test passes on a conforming hart: no CSR it touches is read-only, and
   * wherever the hart suppresses a write before a later check, the predicted write changes nothing.
   */
  lemma SelfCheckVerdict(h: Hart, csrs: seq<Csr>, descs: seq<CsrDesc>, ops: seq<Op>, src: nat, dst: nat,
                         draws: seq<seq<BitString>>, st: State)
    requires DescribedAll(csrs, descs, h.xlen) && AtReset(h, csrs, descs, st) && TestRegs(src, dst)
    requires |draws| == |csrs| && ValidAllDraws(ops, draws)
    ensures ValidCsrs(csrs, h.xlen) && WellFormedProgram(h, Program(csrs, ops, h.xlen, src, dst, draws))
    ensures Run(h, Program(csrs, ops, h.xlen, src, dst, draws), st).Passed? <==>
            ops == [] ||
            forall i :: 0 <= i < |csrs| ==>
              && !ReadOnlyAddress(descs[i].address)
              && InSync(csrs[i], h.xlen, ItemsOf(csrs, ops, h.xlen, draws, i))
  {
    ProgramVerdict(h, csrs, descs, ops, src, dst, draws, st);
    if ops != [] {
      assert forall i :: 0 <= i < |csrs| ==>
        (ShareOk(csrs, descs, ops, h.xlen, draws, i) <==>
         !ReadOnlyAddress(descs[i].address) && InSync(csrs[i], h.xlen, ItemsOf(csrs, ops, h.xlen, draws, i)));
    } else {
      assert SharesOk(csrs, descs, ops, h.xlen, draws);
    }
  }

  // ---------------------------------------------------------------- a condition on the description alone

  /** The legaliser leaves the reset value and every value it has produced as they are. */
  ghost predicate StableField(d: FieldDesc)
    requires d.lsb <= d.msb
  {
    d.ftype == WARL && d.legalize.Some? ==>
      var f, bound := d.legalize.value, Pow2(Size(d));
      && f(d.resetVal, d.resetVal) == d.resetVal
      && forall a: nat, b: nat {:trigger f(a, b)} :: a < bound && b < bound ==> f(f(a, b), f(a, b)) == f(a, b)
  }

  ghost predicate Legalized(d: FieldDesc) {
    d.ftype == WARL && d.legalize.Some?
  }

  /** Every legalised field holds a value its legaliser keeps. */
  ghost predicate Settled(ds: seq<FieldDesc>, xlen: nat, m: BitString)
    requires ValidFields(ds, xlen) && |m| == xlen
  {
    forall d :: d in ds && Legalized(d) ==>
      var w := ToNat(Window(d, xlen, m));
      d.legalize.value(w, w) == w
  }

  lemma WindowBit(d: FieldDesc, xlen: nat, m: BitString, bit: nat)
    requires ValidField(d, xlen) && |m| == xlen && Covers(d, bit)
    ensures NatBit(ToNat(Window(d, xlen, m)), bit - d.lsb) == m[xlen - 1 - bit]
  {
    var w := Window(d, xlen, m);
    FromNatToNat(w);
    FromNatBit(ToNat(w), Size(d), bit - d.lsb);
  }

  /** Writing a settled value back over itself changes nothing. */
  lemma SettledWriteBack(ds: seq<FieldDesc>, xlen: nat, m: BitString)
    requires ValidFields(ds, xlen) && DisjointFields(ds) && |m| == xlen && Settled(ds, xlen, m)
    ensures ArchWrite(ds, xlen, m, m) == m
  {
    ArchWriteIsArchWrite(ds, xlen, m, m);
    forall k: nat | k < xlen
      ensures ArchWrite(ds, xlen, m, m)[k] == m[k]
    {
      var bit: nat := xlen - 1 - k;
      assert k == xlen - 1 - bit;
      if !Unowned(ds, bit) {
        var d :| d in ds && Writable(d) && Covers(d, bit);
        WindowBit(d, xlen, m, bit);
      }
    }
  }

  /** Any write leaves stable legalised fields settled. */
  lemma WriteSettles(ds: seq<FieldDesc>, xlen: nat, v: BitString, m: BitString)
    requires ValidFields(ds, xlen) && DisjointFields(ds) && |v| == |m| == xlen
    requires forall d :: d in ds ==> StableField(d)
    ensures Settled(ds, xlen, ArchWrite(ds, xlen, v, m))
  {
    var r := ArchWrite(ds, xlen, v, m);
    ArchWriteIsArchWrite(ds, xlen, v, m);
    forall d | d in ds && Legalized(d)
      ensures var w := ToNat(Window(d, xlen, r)); d.legalize.value(w, w) == w
    {
      var f := d.legalize.value;
      var a, b := ToNat(Window(d, xlen, v)), ToNat(Window(d, xlen, m));
      assert a < Pow2(Size(d)) && b < Pow2(Size(d));
      LegalizedWindow(d, xlen, v, m, r);
      assert ToNat(Window(d, xlen, r)) == f(a, b);
      assert StableField(d);
    }
  }

  lemma LegalizedWindow(d: FieldDesc, xlen: nat, v: BitString, m: BitString, r: BitString)
    requires ValidField(d, xlen) && Legalized(d) && |v| == |m| == |r| == xlen
    requires forall bit: nat :: Covers(d, bit) ==> r[xlen - 1 - bit] == FieldBit(d, xlen, v, m, bit)
    ensures ToNat(Window(d, xlen, r)) == d.legalize.value(ToNat(Window(d, xlen, v)), ToNat(Window(d, xlen, m)))
  {
    var legal := d.legalize.value(ToNat(Window(d, xlen, v)), ToNat(Window(d, xlen, m)));
    var bits := FromNat(legal, Size(d));
    forall k: nat | k < Size(d)
      ensures Window(d, xlen, r)[k] == bits[k]
    {
      var bit: nat := d.msb - k;
      FromNatBit(legal, Size(d), bit - d.lsb);
      assert Covers(d, bit);
      assert Window(d, xlen, r)[k] == r[xlen - 1 - bit];
    }
    assert Window(d, xlen, r) == bits;
    ToNatFromNat(legal, Size(d));
  }

  lemma {:induction false} ResetWindow(ds: seq<FieldDesc>, xlen: nat, d: FieldDesc)
    requires ValidFields(ds, xlen) && DisjointFields(ds) && d in ds && d.ftype != WPRI
    ensures ValidField(d, xlen) && ToNat(Window(d, xlen, ResetValue(ds, xlen))) == d.resetVal
  {
    var last, front := ds[|ds| - 1], ds[..|ds| - 1];
    var i :| 0 <= i < |ds| && ds[i] == d;
    assert ValidField(d, xlen);
    var r := ResetValue(ds, xlen);
    if i == |ds| - 1 {
      assert Window(d, xlen, r) == FromNat(d.resetVal, Size(d));
      ToNatFromNat(d.resetVal, Size(d));
    } else {
      assert front[i] == d;
      ResetWindow(front, xlen, d);
      var w, was := Window(d, xlen, r), Window(d, xlen, ResetValue(front, xlen));
      forall k: nat | k < Size(d)
        ensures w[k] == was[k]
      {
        assert Covers(ds[i], d.msb - k) && !Covers(ds[|ds| - 1], d.msb - k);
      }
      assert w == was;
    }
  }

  lemma {:induction false} StableModelSettled(c: Csr, d: CsrDesc, xlen: nat, items: seq<Item>)
    requires Described(c, d, xlen) && ValidItems(items, xlen)
    requires forall f :: f in d.fields ==> StableField(f)
    ensures Settled(d.fields, xlen, ModelValue(c, xlen, items))
  {
    if items == [] {
      forall f | f in d.fields && Legalized(f)
        ensures var w := ToNat(Window(f, xlen, c.value)); f.legalize.value(w, w) == w
      {
        ResetWindow(d.fields, xlen, f);
        assert StableField(f);
      }
    } else {
      var front, item := items[..|items| - 1], items[|items| - 1];
      var m := ModelValue(c, xlen, front);
      var op, rs1 := if item.Access? then item.op else CSRRS, if item.Access? then item.val else Zeros(xlen);
      var v := WriteValue(op, rs1, And(m, c.readMask));
      WriteLoopIsArchWrite(d.fields, xlen, v, m);
      WriteSettles(d.fields, xlen, v, m);
    }
  }

  /** With stable legalisers and writable addresses, every test over every draw passes. */
  lemma StableTestsPass(h: Hart, csrs: seq<Csr>, descs: seq<CsrDesc>, ops: seq<Op>, src: nat, dst: nat,
                        draws: seq<seq<BitString>>, st: State)
    requires DescribedAll(csrs, descs, h.xlen) && AtReset(h, csrs, descs, st) && TestRegs(src, dst)
    requires |draws| == |csrs| && ValidAllDraws(ops, draws)
    requires forall i :: 0 <= i < |descs| ==> !ReadOnlyAddress(descs[i].address)
    requires forall i, f :: 0 <= i < |descs| && f in descs[i].fields ==> StableField(f)
    ensures ValidCsrs(csrs, h.xlen) && WellFormedProgram(h, Program(csrs, ops, h.xlen, src, dst, draws))
    ensures Run(h, Program(csrs, ops, h.xlen, src, dst, draws), st).Passed?
  {
    SelfCheckVerdict(h, csrs, descs, ops, src, dst, draws, st);
    forall i | 0 <= i < |csrs|
      ensures InSync(csrs[i], h.xlen, ItemsOf(csrs, ops, h.xlen, draws, i))
    {
      var c, d, items := csrs[i], descs[i], ItemsOf(csrs, ops, h.xlen, draws, i);
      forall k | 0 <= k < |items| - 1
        ensures SyncAt(c, h.xlen, items, k)
      {
        StableInSync(c, d, h.xlen, items, k);
      }
    }
  }

  lemma SuppressedStep(c: Csr, d: CsrDesc, xlen: nat, items: seq<Item>, k: nat)
    requires Described(c, d, xlen) && ValidItems(items, xlen) && k < |items| && Suppressed(items[k])
    ensures var m := ModelValue(c, xlen, items[..k]);
            ModelValue(c, xlen, items[..k + 1]) == ArchWrite(d.fields, xlen, m, m)
  {
    assert items[..k + 1][..k] == items[..k];
    ModelWithinMask(c, d, xlen, items[..k]);
    ModelFollowsHart(c, d, xlen, items[k], ModelValue(c, xlen, items[..k]));
  }

  lemma StableInSync(c: Csr, d: CsrDesc, xlen: nat, items: seq<Item>, k: nat)
    requires Described(c, d, xlen) && ValidItems(items, xlen) && k < |items|
    requires forall f :: f in d.fields ==> StableField(f)
    ensures SyncAt(c, xlen, items, k)
  {
    if Suppressed(items[k]) {
      SuppressedStep(c, d, xlen, items, k);
      StableModelSettled(c, d, xlen, items[..k]);
      SettledWriteBack(d.fields, xlen, ModelValue(c, xlen, items[..k]));
    }
  }

  // ---------------------------------------------------------------- where it fails

  /** The operations `main` passes. */
  const MAIN_OPS: seq<Op> := [CSRRW, CSRRS, CSRRC, CSRRWI, CSRRSI, CSRRCI]

  /** A legaliser that moves every value it is asked to keep. */
  ghost predicate NeverSettles(d: FieldDesc)
    requires d.lsb <= d.msb
  {
    Legalized(d) && forall v: nat :: v < Pow2(Size(d)) ==> d.legalize.value(v, v) != v
  }

  /**
   * On harts wider than 36 bits the third immediate is always zero, so the hart does not write while the
   * model legalises the value it already holds: no test with such a legaliser passes, whatever is drawn.
   */
  lemma NeverSettlingFails(h: Hart, csrs: seq<Csr>, descs: seq<CsrDesc>, src: nat, dst: nat,
                           draws: seq<seq<BitString>>, st: State, i: nat, d: FieldDesc)
    requires DescribedAll(csrs, descs, h.xlen) && AtReset(h, csrs, descs, st) && TestRegs(src, dst)
    requires |draws| == |csrs| && ValidAllDraws(MAIN_OPS, draws)
    requires h.xlen > 36 && i < |descs| && d in descs[i].fields && d.lsb <= d.msb && NeverSettles(d)
    ensures ValidCsrs(csrs, h.xlen) && WellFormedProgram(h, Program(csrs, MAIN_OPS, h.xlen, src, dst, draws))
    ensures !Run(h, Program(csrs, MAIN_OPS, h.xlen, src, dst, draws), st).Passed?
  {
    SelfCheckVerdict(h, csrs, descs, MAIN_OPS, src, dst, draws, st);
    ThirdSetImmediate(h.xlen, draws[i], i == |csrs| - 1);
    OutOfSync(csrs[i], descs[i], h.xlen, ItemsOf(csrs, MAIN_OPS, h.xlen, draws, i), 14, d);
  }

  /** The model moves at an access that the hart does not write with. */
  lemma OutOfSync(c: Csr, desc: CsrDesc, xlen: nat, items: seq<Item>, k: nat, d: FieldDesc)
    requires Described(c, desc, xlen) && ValidItems(items, xlen) && k < |items| - 1 && Suppressed(items[k])
    requires d in desc.fields && d.lsb <= d.msb && NeverSettles(d)
    ensures !InSync(c, xlen, items)
  {
    ModelMoves(c, desc, xlen, items, k, d);
    NotInSync(c, xlen, items, k);
  }

  lemma ModelMoves(c: Csr, desc: CsrDesc, xlen: nat, items: seq<Item>, k: nat, d: FieldDesc)
    requires Described(c, desc, xlen) && ValidItems(items, xlen) && k < |items| && Suppressed(items[k])
    requires d in desc.fields && d.lsb <= d.msb && NeverSettles(d)
    ensures ModelValue(c, xlen, items[..k + 1]) != ModelValue(c, xlen, items[..k])
  {
    SuppressedStep(c, desc, xlen, items, k);
    WriteBackMoves(desc.fields, xlen, ModelValue(c, xlen, items[..k]), d);
  }

  lemma NotInSync(c: Csr, xlen: nat, items: seq<Item>, k: nat)
    requires ValidCsr(c, xlen) && ValidItems(items, xlen) && k < |items| - 1 && Suppressed(items[k])
    requires ModelValue(c, xlen, items[..k + 1]) != ModelValue(c, xlen, items[..k])
    ensures !InSync(c, xlen, items)
  {
    assert !SyncAt(c, xlen, items, k);
  }

  /** The fifteenth access sets the bits of an immediate that is always zero. */
  lemma ThirdSetImmediate(xlen: nat, draws: seq<BitString>, lastCsr: bool)
    requires |draws| == |MAIN_OPS| && ValidDraws(draws) && xlen > 36
    ensures var items := CsrItems(MAIN_OPS, xlen, draws, lastCsr);
            |items| > 15 && Suppressed(items[14])
  {
    CsrItemAt(MAIN_OPS, xlen, draws, lastCsr, 14);
    var v := Rs1Val(2, xlen, draws[4]);
    assert v[xlen - 5..] == Zeros(5);
  }

  lemma WriteBackMoves(ds: seq<FieldDesc>, xlen: nat, m: BitString, d: FieldDesc)
    requires ValidFields(ds, xlen) && DisjointFields(ds) && |m| == xlen
    requires d in ds && d.lsb <= d.msb && NeverSettles(d)
    ensures ArchWrite(ds, xlen, m, m) != m
  {
    var r := ArchWrite(ds, xlen, m, m);
    ArchWriteIsArchWrite(ds, xlen, m, m);
    LegalizedWindow(d, xlen, m, m, r);
  }

  /** Flip the low bit. */
  const FLIP: Legalizer := (a: nat, b: nat) => if a % 2 == 0 then a + 1 else a - 1 as nat

  /** One CSR of one field, whose legaliser flips the low bit of what is written. */
  function FlippingDesc(xlen: nat): CsrDesc
    requires xlen > 0
  {
    CsrDesc("mscratch", 0x340, [FieldDesc(WARL, 0, xlen - 1, 0, Some(FLIP))])
  }

  lemma FlippingLegalizer(xlen: nat)
    requires xlen > 0
    ensures var d := FlippingDesc(xlen).fields[0]; ValidField(d, xlen) && NeverSettles(d)
  {
    assert Pow2(xlen) % 2 == 0;
  }

  /** A 64-bit hart that has just this CSR. */
  function FlippingHart(): Hart {
    Hart(64, map[0x340 := FlippingDesc(64).fields])
  }

  function FlippingState(c: Csr): State {
    State((r: nat) => Zeros(64), map[0x340 := c.value])
  }

  /** On that hart, at reset, no generated program passes. */
  lemma FlippingTestFails(src: nat, dst: nat, draws: seq<seq<BitString>>)
    requires TestRegs(src, dst) && |draws| == 1 && ValidAllDraws(MAIN_OPS, draws)
    ensures ValidFields(FlippingDesc(64).fields, 64)
    ensures var c := LoadedCsr(FlippingDesc(64), 64);
            && ValidCsrs([c], 64) && WellFormedProgram(FlippingHart(), Program([c], MAIN_OPS, 64, src, dst, draws))
            && AtReset(FlippingHart(), [c], [FlippingDesc(64)], FlippingState(c))
            && !Run(FlippingHart(), Program([c], MAIN_OPS, 64, src, dst, draws), FlippingState(c)).Passed?
  {
    FlippingAtReset();
    var c := LoadedCsr(FlippingDesc(64), 64);
    FlippingLegalizer(64);
    NeverSettlingFails(FlippingHart(), [c], [FlippingDesc(64)], src, dst, draws, FlippingState(c), 0,
                       FlippingDesc(64).fields[0]);
  }

  lemma FlippingAtReset()
    ensures ValidFields(FlippingDesc(64).fields, 64)
    ensures var c := LoadedCsr(FlippingDesc(64), 64);
            && DescribedAll([c], [FlippingDesc(64)], 64)
            && AtReset(FlippingHart(), [c], [FlippingDesc(64)], FlippingState(c))
  {
    FlippingLegalizer(64);
    var desc := FlippingDesc(64);
    assert ValidFields(desc.fields, 64);
    assert Described(LoadedCsr(desc, 64), desc, 64);
    AloneAtReset(FlippingHart(), LoadedCsr(desc, 64), desc, FlippingState(LoadedCsr(desc, 64)));
  }

  lemma AloneAtReset(h: Hart, c: Csr, desc: CsrDesc, st: State)
    requires Described(c, desc, h.xlen) && h.xlen >= 5 && h.spec == map[desc.address := desc.fields]
    requires st.csrs == map[desc.address := c.value] && forall r: nat {:trigger st.regs(r)} :: |st.regs(r)| == h.xlen
    ensures AtReset(h, [c], [desc], st)
  {
  }
}
