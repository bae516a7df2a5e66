/** The emitted CSR test against the architecture: the exact verdict of every generated program. */
module CsrSelfCheck {
  import opened Bits
  import opened CsrMap
  import opened Zicsr
  import opened CsrTest

  // ---------------------------------------------------------------- the in-place write loop is the bit-level write

  /** A bit the field covers becomes the new bit, one it does not keeps its value. */
  lemma WriteOneAt(d: FieldDesc, xlen: nat, v: BitString, x: BitString, bit: nat)
    requires ValidField(d, xlen) && d.ftype != WPRI && |v| == |x| == xlen && bit < xlen
    ensures var w := MakeField(d, xlen);
            WriteOne(w, xlen, v, x)[xlen - 1 - bit] ==
            if Writable(d) && Covers(d, bit) then NewBits(w, xlen, v, x)[d.msb - bit] else x[xlen - 1 - bit]
  {
    var w := MakeField(d, xlen);
    if Writable(d) && Covers(d, bit) {
      assert And(w.mask, NewBits(w, xlen, v, x))[d.msb - bit] == NewBits(w, xlen, v, x)[d.msb - bit];
    }
  }

  lemma NewBit(d: FieldDesc, xlen: nat, v: BitString, x: BitString, bit: nat)
    requires ValidField(d, xlen) && d.ftype != WPRI && |v| == |x| == xlen && Covers(d, bit)
    ensures NewBits(MakeField(d, xlen), xlen, v, x)[d.msb - bit] == FieldBit(d, xlen, v, x, bit)
  {
    var w := MakeField(d, xlen);
    if w.Legalize? {
      FromNatBit(w.f(ToNat(v[w.lo..w.hi + 1]), ToNat(x[w.lo..w.hi + 1])), Size(d), bit - d.lsb);
    }
  }

  lemma WriteOneBit(d: FieldDesc, xlen: nat, v: BitString, x: BitString, bit: nat)
    requires ValidField(d, xlen) && d.ftype != WPRI && |v| == |x| == xlen && bit < xlen
    ensures WriteOne(MakeField(d, xlen), xlen, v, x)[xlen - 1 - bit] ==
            if Writable(d) && Covers(d, bit) then FieldBit(d, xlen, v, x, bit) else x[xlen - 1 - bit]
  {
    WriteOneAt(d, xlen, v, x, bit);
    if Covers(d, bit) {
      NewBit(d, xlen, v, x, bit);
    }
  }

  lemma FieldBitWindow(d: FieldDesc, xlen: nat, v: BitString, x: BitString, y: BitString, bit: nat)
    requires ValidField(d, xlen) && |v| == |x| == |y| == xlen && Covers(d, bit)
    requires Window(d, xlen, x) == Window(d, xlen, y)
    ensures FieldBit(d, xlen, v, x, bit) == FieldBit(d, xlen, v, y, bit)
  {
  }

  lemma {:induction false} WriteLoopBit(ds: seq<FieldDesc>, xlen: nat, v: BitString, m: BitString, bit: nat)
    requires ValidFields(ds, xlen) && DisjointFields(ds) && |v| == |m| == xlen && bit < xlen
    ensures WriteAll(MakeFields(ds, xlen), xlen, v, m)[xlen - 1 - bit] == ArchBit(ds, xlen, v, m, bit)
    decreases |ds|, 1
  {
    if ds == [] {
    } else {
      var d, front := ds[|ds| - 1], ds[..|ds| - 1];
      var ws := MakeFields(front, xlen);
      WriteLoopBit(front, xlen, v, m, bit);
      if d.ftype != WPRI {
        var before := WriteAll(ws, xlen, v, m);
        assert (ws + [MakeField(d, xlen)])[..|ws|] == ws;
        assert WriteAll(MakeFields(ds, xlen), xlen, v, m) == WriteOne(MakeField(d, xlen), xlen, v, before);
        WriteOneBit(d, xlen, v, before, bit);
        WindowKept(ds, xlen, v, m);
        if Writable(d) && Covers(d, bit) {
          FieldBitWindow(d, xlen, v, before, m, bit);
        }
      }
    }
  }

  /** When the last field comes to be written, the fields before it have not touched its bits. */
  lemma {:induction false} WindowKept(ds: seq<FieldDesc>, xlen: nat, v: BitString, m: BitString)
    requires ValidFields(ds, xlen) && DisjointFields(ds) && |v| == |m| == xlen && ds != []
    ensures var d, front := ds[|ds| - 1], ds[..|ds| - 1];
            Window(d, xlen, WriteAll(MakeFields(front, xlen), xlen, v, m)) == Window(d, xlen, m)
    decreases |ds|, 0
  {
    var d, front := ds[|ds| - 1], ds[..|ds| - 1];
    var before := WriteAll(MakeFields(front, xlen), xlen, v, m);
    forall bit: nat | Covers(d, bit)
      ensures before[xlen - 1 - bit] == m[xlen - 1 - bit]
    {
      LastFieldUnowned(ds, bit);
      ArchBitUnowned(front, xlen, v, m, bit);
      WriteLoopBit(front, xlen, v, m, bit);
    }
    SameWindow(d, xlen, before, m);
  }

  lemma LastFieldUnowned(ds: seq<FieldDesc>, bit: nat)
    requires DisjointFields(ds) && ds != [] && Covers(ds[|ds| - 1], bit)
    ensures Unowned(ds[..|ds| - 1], bit)
  {
  }

  lemma SameWindow(d: FieldDesc, xlen: nat, x: BitString, y: BitString)
    requires ValidField(d, xlen) && |x| == |y| == xlen
    requires forall bit: nat :: Covers(d, bit) ==> x[xlen - 1 - bit] == y[xlen - 1 - bit]
    ensures Window(d, xlen, x) == Window(d, xlen, y)
  {
    forall k: nat | xlen - 1 - d.msb <= k <= xlen - 1 - d.lsb
      ensures x[k] == y[k]
    {
      assert Covers(d, xlen - 1 - k);
    }
  }

  lemma ArchWriteBit(ds: seq<FieldDesc>, xlen: nat, v: BitString, m: BitString, bit: nat)
    requires ValidFields(ds, xlen) && |v| == |m| == xlen && bit < xlen
    ensures ArchWrite(ds, xlen, v, m)[xlen - 1 - bit] == ArchBit(ds, xlen, v, m, bit)
  {
  }

  lemma WriteLoopAt(ds: seq<FieldDesc>, xlen: nat, v: BitString, m: BitString, bit: nat)
    requires ValidFields(ds, xlen) && DisjointFields(ds) && |v| == |m| == xlen && bit < xlen
    ensures WriteAll(MakeFields(ds, xlen), xlen, v, m)[xlen - 1 - bit] == ArchWrite(ds, xlen, v, m)[xlen - 1 - bit]
  {
    WriteLoopBit(ds, xlen, v, m, bit);
    ArchWriteBit(ds, xlen, v, m, bit);
  }

  /** Bit strings of one length are equal when they are at every index. */
  lemma SameStrings(x: BitString, y: BitString, xlen: nat)
    requires |x| == |y| == xlen && forall k :: 0 <= k < xlen ==> x[k] == y[k]
    ensures x == y
  {
  }

  lemma WriteLoopIsArchWrite(ds: seq<FieldDesc>, xlen: nat, v: BitString, m: BitString)
    requires ValidFields(ds, xlen) && DisjointFields(ds) && |v| == |m| == xlen
    ensures WriteAll(MakeFields(ds, xlen), xlen, v, m) == ArchWrite(ds, xlen, v, m)
  {
    var written, arch := WriteAll(MakeFields(ds, xlen), xlen, v, m), ArchWrite(ds, xlen, v, m);
    forall k: nat | k < xlen
      ensures written[k] == arch[k]
    {
      WriteLoopAt(ds, xlen, v, m, xlen - 1 - k);
      assert xlen - 1 - (xlen - 1 - k) == k;
    }
    SameStrings(written, arch, xlen);
  }

  /** Fields may be listed, and so written, in any order. */
  lemma FieldOrderIrrelevant(ds: seq<FieldDesc>, es: seq<FieldDesc>, xlen: nat, v: BitString, m: BitString)
    requires ValidFields(ds, xlen) && ValidFields(es, xlen) && |v| == |m| == xlen
    requires DisjointFields(ds) && DisjointFields(es) && forall d :: d in ds <==> d in es
    ensures WriteAll(MakeFields(ds, xlen), xlen, v, m) == WriteAll(MakeFields(es, xlen), xlen, v, m)
  {
    WriteLoopIsArchWrite(ds, xlen, v, m);
    WriteLoopIsArchWrite(es, xlen, v, m);
    ArchWriteIsArchWrite(ds, xlen, v, m);
    ArchWriteIsArchWrite(es, xlen, v, m);
    ArchWriteUnique(ds, es, xlen, v, m, ArchWrite(ds, xlen, v, m), ArchWrite(es, xlen, v, m));
  }

  // ---------------------------------------------------------------- the read mask

  predicate Readable(d: FieldDesc) {
    d.ftype != WPRI
  }

  lemma {:induction false} ReadMaskBit(ds: seq<FieldDesc>, xlen: nat, bit: nat)
    requires ValidFields(ds, xlen) && bit < xlen
    ensures ReadMask(ds, xlen)[xlen - 1 - bit] <==> exists d :: d in ds && Readable(d) && Covers(d, bit)
  {
    if ds == [] {
    } else {
      var d, front := ds[|ds| - 1], ds[..|ds| - 1];
      ReadMaskBit(front, xlen, bit);
      assert ds == front + [d];
      assert d in ds && forall e :: e in front ==> e in ds;
      if Readable(d) && Covers(d, bit) {
        assert xlen - 1 - d.msb <= xlen - 1 - bit < xlen - 1 - d.msb + Size(d);
      }
    }
  }

  /** Nothing outside the read mask is ever set. */
  ghost predicate WithinMask(m: BitString, mask: BitString) {
    |m| == |mask| && And(m, mask) == m
  }

  lemma {:induction false} ResetWithinMask(ds: seq<FieldDesc>, xlen: nat)
    requires ValidFields(ds, xlen)
    ensures WithinMask(ResetValue(ds, xlen), ReadMask(ds, xlen))
  {
    if ds == [] {
      assert And(Zeros(xlen), Zeros(xlen)) == Zeros(xlen);
    } else {
      var front := ds[..|ds| - 1];
      ResetWithinMask(front, xlen);
      var m, mask := ResetValue(ds, xlen), ReadMask(ds, xlen);
      forall k | 0 <= k < xlen
        ensures And(m, mask)[k] == m[k]
      {
        assert And(ResetValue(front, xlen), ReadMask(front, xlen))[k] == ResetValue(front, xlen)[k];
      }
    }
  }

  lemma ArchWriteWithinMask(ds: seq<FieldDesc>, xlen: nat, v: BitString, m: BitString)
    requires ValidFields(ds, xlen) && DisjointFields(ds) && |v| == xlen
    requires WithinMask(m, ReadMask(ds, xlen))
    ensures WithinMask(ArchWrite(ds, xlen, v, m), ReadMask(ds, xlen))
  {
    var mask, r := ReadMask(ds, xlen), ArchWrite(ds, xlen, v, m);
    forall k: nat | k < xlen
      ensures And(r, mask)[k] == r[k]
    {
      var bit: nat := xlen - 1 - k;
      ReadMaskBit(ds, xlen, bit);
      assert k == xlen - 1 - bit;
      if !mask[k] {
        ArchBitUnowned(ds, xlen, v, m, bit);
        assert And(m, mask)[k] == m[k];
      }
    }
  }

  // ---------------------------------------------------------------- one access

  /** The accesses that leave the CSR unwritten: plain reads, and set or clear of a zero immediate. */
  predicate Suppressed(item: Item) {
    match item
    case Access(op, v) => |v| >= 5 && (op == CSRRSI || op == CSRRCI) && v[|v| - 5..] == Zeros(5)
    case FinalRead => true
  }

  /** What the hart holds after the access. */
  function HartAfter(ds: seq<FieldDesc>, xlen: nat, item: Item, x: BitString): (r: BitString)
    requires ValidFields(ds, xlen) && |x| == xlen >= 5 && (item.Access? ==> |item.val| == xlen)
    ensures |r| == xlen
  {
    if Suppressed(item) then x
    else
      var operand := if IsImm(item.op) then ZeroExtended(item.val) else item.val;
      ArchWrite(ds, xlen, Offered(Funct(item.op), x, operand), x)
  }

  /** What the generator's model holds after the access. */
  function ModelAfter(c: Csr, xlen: nat, item: Item, m: BitString): (r: BitString)
    requires ValidCsr(c, xlen) && |m| == xlen && (item.Access? ==> |item.val| == xlen)
    ensures |r| == xlen
  {
    match item
    case Access(op, v) => Predicted(c, op, v, m)
    case FinalRead => Predicted(c, CSRRS, Zeros(xlen), m)
  }

  ghost predicate Described(c: Csr, d: CsrDesc, xlen: nat) {
    && xlen >= 5
    && ValidFields(d.fields, xlen)
    && DisjointFields(d.fields)
    && c == LoadedCsr(d, xlen)
  }

  /**
   * Whatever is written, the model stays within the mask, and it moves as the hart does unless the hart does
   * not write.
   */
  lemma ModelFollowsHart(c: Csr, d: CsrDesc, xlen: nat, item: Item, m: BitString)
    requires Described(c, d, xlen) && WithinMask(m, c.readMask) && (item.Access? ==> |item.val| == xlen)
    ensures WithinMask(ModelAfter(c, xlen, item, m), c.readMask)
    ensures !Suppressed(item) ==> ModelAfter(c, xlen, item, m) == HartAfter(d.fields, xlen, item, m)
    ensures Suppressed(item) ==> ModelAfter(c, xlen, item, m) == ArchWrite(d.fields, xlen, m, m)
  {
    var op := if item.Access? then item.op else CSRRS;
    var rs1 := if item.Access? then item.val else Zeros(xlen);
    var v := WriteValue(op, rs1, m);
    WriteLoopIsArchWrite(d.fields, xlen, v, m);
    ArchWriteWithinMask(d.fields, xlen, v, m);
    var operand := if IsImm(op) then ZeroExtended(rs1) else rs1;
    if Suppressed(item) {
      assert operand == Zeros(xlen) by {
        if item.Access? {
          assert Zeros(xlen - 5) + Zeros(5) == Zeros(xlen);
        }
      }
      assert v == m;
    } else {
      assert v == Offered(Funct(op), m, operand);
    }
  }

  /** An access read `x`: the check lets the run go on exactly when the prediction said `x`. */
  lemma ItemRuns(h: Hart, c: Csr, d: CsrDesc, src: nat, dst: nat, item: Item, m: BitString, st: State)
    requires Described(c, d, h.xlen) && ValidHart(h) && ValidState(h, st) && |m| == h.xlen
    requires c.address in h.spec && h.spec[c.address] == d.fields && !ReadOnlyAddress(c.address)
    requires 0 < src && 0 < dst && src != dst && (item.Access? ==> |item.val| == h.xlen)
    ensures var code := ItemCode(c, src, dst, item, m);
            && WellFormedProgram(h, code)
            && var o := Run(h, code, st);
               if st.csrs[c.address] == And(m, c.readMask)
               then && o.Passed?
                    && o.st.csrs == st.csrs[c.address := HartAfter(d.fields, h.xlen, item, st.csrs[c.address])]
               else o == Failed
  {
    var loads := item.Access? && !IsImm(item.op);
    var st' := if loads then SetReg(st, src, item.val) else st;
    var code, rest := ItemCode(c, src, dst, item, m), [AccessInstr(c, src, dst, item)] + CheckCode(c, src, dst, m);
    LoadedItemRuns(h, c, d, src, dst, item, m, st');
    if loads {
      assert code == [Li(src, item.val)] + rest && code[1..] == rest;
      assert Run(h, code, st) == Run(h, rest, st');
    } else {
      assert code == rest;
    }
  }

  function CheckCode(c: Csr, src: nat, dst: nat, m: BitString): seq<Asm>
    requires |m| == |c.readMask|
  {
    [Li(src, And(m, c.readMask)), BneFail(src, dst)]
  }

  /** The access once its operand, if it has one, is loaded. */
  lemma LoadedItemRuns(h: Hart, c: Csr, d: CsrDesc, src: nat, dst: nat, item: Item, m: BitString, st: State)
    requires Described(c, d, h.xlen) && ValidHart(h) && ValidState(h, st) && |m| == h.xlen
    requires c.address in h.spec && h.spec[c.address] == d.fields && !ReadOnlyAddress(c.address)
    requires 0 < src && 0 < dst && src != dst && (item.Access? ==> |item.val| == h.xlen)
    requires item.Access? && !IsImm(item.op) ==> st.regs(src) == item.val
    ensures var rest := [AccessInstr(c, src, dst, item)] + CheckCode(c, src, dst, m);
            && WellFormedProgram(h, rest)
            && var o := Run(h, rest, st);
               if st.csrs[c.address] == And(m, c.readMask)
               then && o.Passed?
                    && o.st.csrs == st.csrs[c.address := HartAfter(d.fields, h.xlen, item, st.csrs[c.address])]
               else o == Failed
  {
    var rest := [AccessInstr(c, src, dst, item)] + CheckCode(c, src, dst, m);
    AccessRuns(h, c, d, src, dst, item, st);
    var o := Step(h, rest[0], st);
    assert rest[1..] == CheckCode(c, src, dst, m);
    CheckRuns(h, src, dst, And(m, c.readMask), o.st);
    assert Run(h, rest, st) == Run(h, rest[1..], o.st);
  }

  /** The CSR instruction of an access. */
  function AccessInstr(c: Csr, src: nat, dst: nat, item: Item): Asm
    requires item.Access? ==> |item.val| >= 5
  {
    match item
    case Access(op, v) =>
      if IsImm(op) then CsrImm(Funct(op), dst, c.address, v[|v| - 5..]) else CsrReg(Funct(op), dst, c.address, src)
    case FinalRead => CsrReg(RS, dst, c.address, 0)
  }

  /** It reads the CSR and leaves in it what the access should. */
  lemma AccessRuns(h: Hart, c: Csr, d: CsrDesc, src: nat, dst: nat, item: Item, st: State)
    requires Described(c, d, h.xlen) && ValidHart(h) && ValidState(h, st)
    requires c.address in h.spec && h.spec[c.address] == d.fields && !ReadOnlyAddress(c.address)
    requires 0 < src && 0 < dst && src != dst && (item.Access? ==> |item.val| == h.xlen)
    requires item.Access? && !IsImm(item.op) ==> st.regs(src) == item.val
    ensures WellFormed(h, AccessInstr(c, src, dst, item))
    ensures var o, x := Step(h, AccessInstr(c, src, dst, item), st), st.csrs[c.address];
            && o.Passed? && ValidState(h, o.st) && o.st.regs(dst) == x
            && o.st.csrs == st.csrs[c.address := HartAfter(d.fields, h.xlen, item, x)]
  {
    if Suppressed(item) {
      assert st.csrs[c.address := st.csrs[c.address]] == st.csrs;
    }
  }

  lemma CheckRuns(h: Hart, src: nat, dst: nat, v: BitString, st: State)
    requires ValidHart(h) && ValidState(h, st) && |v| == h.xlen && 0 < src && 0 < dst && src != dst
    ensures var check := [Li(src, v), BneFail(src, dst)];
            && WellFormedProgram(h, check)
            && var o := Run(h, check, st);
               if st.regs(dst) == v then o.Passed? && o.st.csrs == st.csrs else o == Failed
  {
    var check := [Li(src, v), BneFail(src, dst)];
    var loaded := SetReg(st, src, v);
    assert Step(h, check[0], st) == Passed(loaded);
    assert check[1..] == [BneFail(src, dst)];
    var o := Step(h, check[1], loaded);
    assert Run(h, check, st) == Run(h, check[1..], loaded);
    assert check[1..][1..] == [];
    assert Run(h, check[1..], loaded) == if o.Passed? then Run(h, [], o.st) else o;
  }
}
