/** The self-checking CSR test: what the generator predicts, what it emits, and how the emitted program ends. */
module CsrTest {
  import opened Bits
  import opened CsrMap
  import opened Zicsr

  datatype Op = CSRRW | CSRRS | CSRRC | CSRRWI | CSRRSI | CSRRCI

  predicate IsImm(op: Op) {
    op in {CSRRWI, CSRRSI, CSRRCI}
  }

  function Funct(op: Op): CsrFunct {
    match op
    case CSRRW | CSRRWI => RW
    case CSRRS | CSRRSI => RS
    case CSRRC | CSRRCI => RC
  }

  // ---------------------------------------------------------------- prediction

  /** Zero-extension of the five low bits. */
  function ZeroExtended(v: BitString): (r: BitString)
    requires |v| >= 5
    ensures |r| == |v|
  {
    Zeros(|v| - 5) + v[|v| - 5..]
  }

  /** The value `predict_csr_val` hands to `csr_write`. */
  function WriteValue(op: Op, rs1: BitString, prediction: BitString): (r: BitString)
    requires |rs1| == |prediction| >= 5
    ensures |r| == |rs1|
  {
    match op
    case CSRRW => rs1
    case CSRRS => Or(rs1, prediction)
    case CSRRC => And(Not(rs1), prediction)
    case CSRRWI => ZeroExtended(rs1)
    case CSRRSI => Or(ZeroExtended(rs1), prediction)
    case CSRRCI => And(Not(ZeroExtended(rs1)), prediction)
  }

  /** The model's CSR value after one predicted operation. */
  function Predicted(c: Csr, op: Op, rs1: BitString, m: BitString): (r: BitString)
    requires ValidWriteFields(c.fields, |m|) && |rs1| == |m| == |c.readMask| >= 5
    ensures |r| == |m|
  {
    WriteAll(c.fields, |m|, WriteValue(op, rs1, And(m, c.readMask)), m)
  }

  /** Returns the read value and moves the CSR model to its next value. */
  method PredictCsrVal(c: Csr, op: Op, rs1: BitString, csrVal: array<bool>) returns (prediction: BitString)
    requires ValidWriteFields(c.fields, csrVal.Length) && |rs1| == csrVal.Length == |c.readMask| >= 5
    modifies csrVal
    ensures prediction == And(old(csrVal[..]), c.readMask)
    ensures csrVal[..] == Predicted(c, op, rs1, old(csrVal[..]))
  {
    prediction := And(csrVal[..], c.readMask);
    var zero := Zeros(csrVal.Length - 5);
    match op {
      case CSRRW =>
        CsrWrite(rs1, csrVal, c.fields);
      case CSRRS =>
        CsrWrite(Or(rs1, prediction), csrVal, c.fields);
      case CSRRC =>
        CsrWrite(And(Not(rs1), prediction), csrVal, c.fields);
      case CSRRWI =>
        zero := zero + rs1[|rs1| - 5..];
        CsrWrite(zero, csrVal, c.fields);
      case CSRRSI =>
        zero := zero + rs1[|rs1| - 5..];
        CsrWrite(Or(zero, prediction), csrVal, c.fields);
      case CSRRCI =>
        zero := zero + rs1[|rs1| - 5..];
        CsrWrite(And(Not(zero), prediction), csrVal, c.fields);
    }
  }

  // ---------------------------------------------------------------- emitted code

  /** One checked access: an operation with its test value, or the closing read. */
  datatype Item = Access(op: Op, val: BitString) | FinalRead

  ghost predicate ValidItems(items: seq<Item>, xlen: nat) {
    forall i :: 0 <= i < |items| && items[i].Access? ==> |items[i].val| == xlen
  }

  ghost predicate ValidCsr(c: Csr, xlen: nat) {
    && xlen >= 5
    && |c.value| == |c.readMask| == xlen
    && ValidWriteFields(c.fields, xlen)
  }

  /** The model's CSR value after the items, from reset. */
  function ModelValue(c: Csr, xlen: nat, items: seq<Item>): (m: BitString)
    requires ValidCsr(c, xlen) && ValidItems(items, xlen)
    ensures |m| == xlen
  {
    if items == [] then c.value
    else
      var m := ModelValue(c, xlen, items[..|items| - 1]);
      match items[|items| - 1]
      case Access(op, v) => Predicted(c, op, v, m)
      case FinalRead => Predicted(c, CSRRS, Zeros(xlen), m)
  }

  /** The instructions of one item; `m` is the model's value just before it. */
  function ItemCode(c: Csr, src: nat, dst: nat, item: Item, m: BitString): seq<Asm>
    requires |m| == |c.readMask| >= 5 && (item.Access? ==> |item.val| == |m|)
  {
    var check := [Li(src, And(m, c.readMask)), BneFail(src, dst)];
    match item
    case Access(op, v) =>
      if IsImm(op) then [CsrImm(Funct(op), dst, c.address, v[|v| - 5..])] + check
      else [Li(src, v), CsrReg(Funct(op), dst, c.address, src)] + check
    case FinalRead => [CsrReg(RS, dst, c.address, 0)] + check
  }

  function ItemsCode(c: Csr, xlen: nat, src: nat, dst: nat, items: seq<Item>): seq<Asm>
    requires ValidCsr(c, xlen) && ValidItems(items, xlen)
  {
    if items == [] then []
    else
      var front := items[..|items| - 1];
      ItemsCode(c, xlen, src, dst, front) +
      ItemCode(c, src, dst, items[|items| - 1], ModelValue(c, xlen, front))
  }

  const A5: BitString := [true, false, true, false, false, true, false, true]

  /**
   * The three test values: 0xa5a5.., 0x5a5a.. and a random one. Only the 32 leading bits
   * of the last are drawn, so on wider harts its low bits are zero.
   */
  function Rs1Val(iteration: nat, xlen: nat, draw: BitString): (v: BitString)
    requires |draw| == 32 <= xlen
    ensures |v| == xlen
  {
    if iteration == 0 then seq(xlen, k requires 0 <= k < xlen => A5[k % 8])
    else if iteration == 1 then seq(xlen, k requires 0 <= k < xlen => !A5[k % 8])
    else draw + Zeros(xlen - 32)
  }

  /** The accesses made with one operation. */
  function OpItems(op: Op, xlen: nat, draw: BitString): (items: seq<Item>)
    requires |draw| == 32 <= xlen
    ensures ValidItems(items, xlen)
  {
    seq(3, i requires 0 <= i < 3 => Access(op, Rs1Val(i, xlen, draw)))
  }

  ghost predicate ValidDraws(draws: seq<BitString>) {
    forall i :: 0 <= i < |draws| ==> |draws[i]| == 32
  }

  /** The accesses made to one CSR with the first |draws| operations. */
  function CsrItems(ops: seq<Op>, xlen: nat, draws: seq<BitString>, lastCsr: bool): (items: seq<Item>)
    requires |draws| <= |ops| && ValidDraws(draws) && xlen >= 32
    ensures ValidItems(items, xlen)
  {
    if draws == [] then []
    else
      var n := |draws| - 1;
      CsrItems(ops, xlen, draws[..n], lastCsr) + OpItems(ops[n], xlen, draws[n]) +
      (if lastCsr && ops[n] == ops[|ops| - 1] then [FinalRead] else [])
  }

  ghost predicate ValidAllDraws(ops: seq<Op>, draws: seq<seq<BitString>>) {
    forall i :: 0 <= i < |draws| ==> |draws[i]| == |ops| && ValidDraws(draws[i])
  }

  ghost predicate ValidCsrs(csrs: seq<Csr>, xlen: nat) {
    xlen >= 32 && forall i :: 0 <= i < |csrs| ==> ValidCsr(csrs[i], xlen)
  }

  function ItemsOf(csrs: seq<Csr>, ops: seq<Op>, xlen: nat, draws: seq<seq<BitString>>, i: nat): (items: seq<Item>)
    requires i < |draws| <= |csrs| && ValidAllDraws(ops, draws) && xlen >= 32
    ensures ValidItems(items, xlen)
  {
    CsrItems(ops, xlen, draws[i], i == |csrs| - 1)
  }

  /** The test program over the first |draws| CSRs. */
  function Program(csrs: seq<Csr>, ops: seq<Op>, xlen: nat, src: nat, dst: nat, draws: seq<seq<BitString>>): seq<Asm>
    requires |draws| <= |csrs| && ValidAllDraws(ops, draws) && ValidCsrs(csrs, xlen)
  {
    if draws == [] then []
    else
      var n := |draws| - 1;
      Program(csrs, ops, xlen, src, dst, draws[..n]) +
      ItemsCode(csrs[n], xlen, src, dst, ItemsOf(csrs, ops, xlen, draws, n))
  }

  // ---------------------------------------------------------------- what is tried on a CSR

  lemma NatSnoc(b: BitString, r: BitString)
    requires |r| == |b| + 1 && r[..|b|] == b
    ensures ToNat(r) == 2 * ToNat(b) + (if r[|b|] then 1 else 0)
  {
  }

  const NOT_A5: BitString := [false, true, false, true, true, false, true, false]

  lemma ValueOfA5()
    ensures ToNat(A5) == 0xa5
  {
    NatSnoc([], [true]);
    NatSnoc([true], [true, false]);
    NatSnoc([true, false], [true, false, true]);
    NatSnoc([true, false, true], [true, false, true, false]);
    NatSnoc([true, false, true, false], [true, false, true, false, false]);
    NatSnoc([true, false, true, false, false], [true, false, true, false, false, true]);
    NatSnoc([true, false, true, false, false, true], [true, false, true, false, false, true, false]);
    NatSnoc([true, false, true, false, false, true, false], [true, false, true, false, false, true, false, true]);
  }

  lemma ValueOfNotA5()
    ensures ToNat(NOT_A5) == 0x5a
  {
    NatSnoc([], [false]);
    NatSnoc([false], [false, true]);
    NatSnoc([false, true], [false, true, false]);
    NatSnoc([false, true, false], [false, true, false, true]);
    NatSnoc([false, true, false, true], [false, true, false, true, true]);
    NatSnoc([false, true, false, true, true], [false, true, false, true, true, false]);
    NatSnoc([false, true, false, true, true, false], [false, true, false, true, true, false, true]);
    NatSnoc([false, true, false, true, true, false, true], [false, true, false, true, true, false, true, false]);
  }

  /** Every byte of the bit string reads `n`. */
  ghost predicate EveryByte(v: BitString, n: nat) {
    |v| % 8 == 0 && forall k: nat :: 8 * k < |v| ==> ToNat(ByteAt(v, k)) == n
  }

  function ByteAt(v: BitString, k: nat): (b: BitString)
    requires 8 * k < |v| && |v| % 8 == 0
    ensures |b| == 8
  {
    v[8 * k..8 * k + 8]
  }

  /** The `i`-th value an operation is tried on: alternating bits, those reversed, then 32 drawn bits and zeros. */
  ghost predicate TestValue(i: nat, v: BitString, draw: BitString)
    requires |draw| == 32 <= |v|
  {
    if i == 0 then EveryByte(v, 0xa5)
    else if i == 1 then EveryByte(v, 0x5a)
    else v[..32] == draw && forall k :: 32 <= k < |v| ==> !v[k]
  }

  lemma TestValues(i: nat, xlen: nat, draw: BitString)
    requires |draw| == 32 <= xlen && xlen % 8 == 0
    ensures TestValue(i, Rs1Val(i, xlen, draw), draw)
  {
    forall k: nat | i < 2 && 8 * k < xlen
      ensures ToNat(ByteAt(Rs1Val(i, xlen, draw), k)) == if i == 0 then 0xa5 else 0x5a
    {
      TestByte(i, xlen, draw, k);
    }
  }

  lemma TestByte(i: nat, xlen: nat, draw: BitString, k: nat)
    requires |draw| == 32 <= xlen && xlen % 8 == 0 && i < 2 && 8 * k < xlen
    ensures ToNat(ByteAt(Rs1Val(i, xlen, draw), k)) == if i == 0 then 0xa5 else 0x5a
  {
    var b, a := ByteAt(Rs1Val(i, xlen, draw), k), if i == 0 then A5 else NOT_A5;
    forall j | 0 <= j < 8
      ensures b[j] == a[j]
    {
      ByteIndex(k, j);
    }
    assert b == a;
    ValueOfA5();
    ValueOfNotA5();
  }

  lemma ByteIndex(k: nat, j: nat)
    requires j < 8
    ensures (8 * k + j) % 8 == j
  {
  }

  lemma {:induction false} CsrItemAt(ops: seq<Op>, xlen: nat, draws: seq<BitString>, lastCsr: bool, k: nat)
    requires |draws| <= |ops| && ValidDraws(draws) && xlen >= 32
    requires forall j :: 0 <= j < |ops| - 1 ==> ops[j] != ops[|ops| - 1]
    requires k < 3 * |draws|
    ensures var items := CsrItems(ops, xlen, draws, lastCsr);
            && |items| >= 3 * |draws|
            && items[k] == OpItems(ops[k / 3], xlen, draws[k / 3])[k % 3]
            && (|draws| < |ops| || !lastCsr ==> |items| == 3 * |draws|)
            && (|draws| == |ops| && lastCsr ==> |items| == 3 * |draws| + 1 && items[3 * |draws|] == FinalRead)
  {
    var n := |draws| - 1;
    var front, mid := CsrItems(ops, xlen, draws[..n], lastCsr), OpItems(ops[n], xlen, draws[n]);
    if n > 0 {
      CsrItemAt(ops, xlen, draws[..n], lastCsr, if k < 3 * n then k else 0);
    }
    assert |front| == 3 * n;
    assert n < |ops| - 1 ==> CsrItems(ops, xlen, draws, lastCsr) == front + mid;
    if k >= 3 * n {
      assert k / 3 == n && k % 3 == k - 3 * n;
      assert (front + mid)[k] == mid[k - 3 * n];
    } else {
      assert (front + mid)[k] == front[k];
    }
  }

  /**
   * The accesses made to a CSR: each operation in turn on the three test values, then on the last CSR a plain
   * read; no others.
   */
  lemma AccessesMade(ops: seq<Op>, xlen: nat, draws: seq<BitString>, lastCsr: bool)
    requires |draws| == |ops| > 0 && ValidDraws(draws) && xlen >= 32 && xlen % 8 == 0
    requires forall j :: 0 <= j < |ops| - 1 ==> ops[j] != ops[|ops| - 1]
    ensures var items := CsrItems(ops, xlen, draws, lastCsr);
            && |items| == 3 * |ops| + (if lastCsr then 1 else 0)
            && (lastCsr ==> items[3 * |ops|] == FinalRead)
            && forall k: nat :: k < 3 * |ops| ==>
                 && items[k].Access? && items[k].op == ops[k / 3] && |items[k].val| == xlen
                 && TestValue(k % 3, items[k].val, draws[k / 3])
  {
    CsrItemAt(ops, xlen, draws, lastCsr, 0);
    forall k: nat | k < 3 * |ops|
      ensures var x := CsrItems(ops, xlen, draws, lastCsr)[k];
              x.Access? && x.op == ops[k / 3] && |x.val| == xlen && TestValue(k % 3, x.val, draws[k / 3])
    {
      CsrItemAt(ops, xlen, draws, lastCsr, k);
      TestValues(k % 3, xlen, draws[k / 3]);
    }
  }

  // ---------------------------------------------------------------- the generator

  lemma ItemsCodeSnoc(c: Csr, xlen: nat, src: nat, dst: nat, items: seq<Item>, item: Item)
    requires ValidCsr(c, xlen) && ValidItems(items, xlen) && (item.Access? ==> |item.val| == xlen)
    ensures ValidItems(items + [item], xlen)
    ensures ItemsCode(c, xlen, src, dst, items + [item]) ==
            ItemsCode(c, xlen, src, dst, items) + ItemCode(c, src, dst, item, ModelValue(c, xlen, items))
    ensures ModelValue(c, xlen, items + [item]) ==
            match item
            case Access(op, v) => Predicted(c, op, v, ModelValue(c, xlen, items))
            case FinalRead => Predicted(c, CSRRS, Zeros(xlen), ModelValue(c, xlen, items))
  {
    var all := items + [item];
    assert all[..|all| - 1] == items;
  }

  /** Writes one access: the operation on its test value, then the check of what it read. */
  method GenAccess(c: Csr, op: Op, v: BitString, src: nat, dst: nat, csrVal: array<bool>) returns (code: seq<Asm>)
    requires ValidCsr(c, csrVal.Length) && |v| == csrVal.Length
    modifies csrVal
    ensures code == ItemCode(c, src, dst, Access(op, v), old(csrVal[..]))
    ensures csrVal[..] == Predicted(c, op, v, old(csrVal[..]))
  {
    if IsImm(op) {
      var imm := v[|v| - 5..];
      var immVal := Zeros(|v| - 5) + imm;
      assert ZeroExtended(immVal) == ZeroExtended(v);
      var prediction := PredictCsrVal(c, op, immVal, csrVal);
      code := [CsrImm(Funct(op), dst, c.address, imm), Li(src, prediction), BneFail(src, dst)];
    } else {
      var prediction := PredictCsrVal(c, op, v, csrVal);
      code := [Li(src, v), CsrReg(Funct(op), dst, c.address, src), Li(src, prediction), BneFail(src, dst)];
    }
  }

  /** Writes the closing check: a plain read, with the model stepped as for `csrrs` of zero. */
  method GenFinalRead(c: Csr, src: nat, dst: nat, csrVal: array<bool>) returns (code: seq<Asm>)
    requires ValidCsr(c, csrVal.Length)
    modifies csrVal
    ensures code == ItemCode(c, src, dst, FinalRead, old(csrVal[..]))
    ensures csrVal[..] == Predicted(c, CSRRS, Zeros(csrVal.Length), old(csrVal[..]))
  {
    var prediction := PredictCsrVal(c, CSRRS, Zeros(csrVal.Length), csrVal);
    code := [CsrReg(RS, dst, c.address, 0), Li(src, prediction), BneFail(src, dst)];
  }

  lemma TakeSnoc<T>(a: seq<T>, b: seq<T>, i: nat)
    requires i < |b|
    ensures a + b[..i] + [b[i]] == a + b[..i + 1]
  {
  }

  /** The test file and the CSR model agree that exactly `items` have been written for `c`. */
  ghost predicate Emitted(c: Csr, xlen: nat, src: nat, dst: nat, items: seq<Item>, code: seq<Asm>, value: BitString) {
    && ValidCsr(c, xlen)
    && ValidItems(items, xlen)
    && code == ItemsCode(c, xlen, src, dst, items)
    && value == ModelValue(c, xlen, items)
  }

  method GenItem(c: Csr, src: nat, dst: nat, item: Item, csrVal: array<bool>, before: seq<Asm>, ghost items: seq<Item>)
    returns (code: seq<Asm>)
    requires Emitted(c, csrVal.Length, src, dst, items, before, csrVal[..])
    requires item.Access? ==> |item.val| == csrVal.Length
    modifies csrVal
    ensures Emitted(c, csrVal.Length, src, dst, items + [item], code, csrVal[..])
  {
    ItemsCodeSnoc(c, csrVal.Length, src, dst, items, item);
    var more;
    match item {
      case Access(op, v) => more := GenAccess(c, op, v, src, dst, csrVal);
      case FinalRead => more := GenFinalRead(c, src, dst, csrVal);
    }
    code := before + more;
  }

  /** The accesses of one operation: three with the test values, and the closing read where it belongs. */
  method GenOp(c: Csr, op: Op, src: nat, dst: nat, lastOp: bool, csrVal: array<bool>, before: seq<Asm>,
               ghost items: seq<Item>)
    returns (code: seq<Asm>, draw: BitString)
    requires csrVal.Length >= 32
    requires Emitted(c, csrVal.Length, src, dst, items, before, csrVal[..])
    modifies csrVal
    ensures |draw| == 32
    ensures Emitted(c, csrVal.Length, src, dst,
                    items + OpItems(op, csrVal.Length, draw) + (if lastOp then [FinalRead] else []), code, csrVal[..])
  {
    var xlen := csrVal.Length;
    code := before;
    assert |Zeros(32)| == 32;
    var bits: BitString :| |bits| == 32;
    draw := bits;
    ghost var all := OpItems(op, xlen, draw);
    assert items + all[..0] == items;
    for i := 0 to 3
      invariant Emitted(c, xlen, src, dst, items + all[..i], code, csrVal[..])
    {
      var v := Rs1Val(i, xlen, bits);
      code := GenItem(c, src, dst, Access(op, v), csrVal, code, items + all[..i]);
      TakeSnoc(items, all, i);
    }
    assert all[..3] == all;
    if lastOp {
      code := GenItem(c, src, dst, FinalRead, csrVal, code, items + all);
    } else {
      assert items + all + [] == items + all;
    }
  }

  lemma CsrItemsSnoc(ops: seq<Op>, xlen: nat, draws: seq<BitString>, lastCsr: bool, draw: BitString)
    requires |draws| < |ops| && ValidDraws(draws) && xlen >= 32 && |draw| == 32
    ensures CsrItems(ops, xlen, draws + [draw], lastCsr) ==
            CsrItems(ops, xlen, draws, lastCsr) + OpItems(ops[|draws|], xlen, draw) +
            (if lastCsr && ops[|draws|] == ops[|ops| - 1] then [FinalRead] else [])
  {
    assert (draws + [draw])[..|draws|] == draws;
  }

  method GenCsr(c: Csr, xlen: nat, ops: seq<Op>, src: nat, dst: nat, lastCsr: bool)
    returns (code: seq<Asm>, draws: seq<BitString>)
    requires ValidCsr(c, xlen) && xlen >= 32
    ensures |draws| == |ops| && ValidDraws(draws)
    ensures code == ItemsCode(c, xlen, src, dst, CsrItems(ops, xlen, draws, lastCsr))
  {
    var csrVal := new bool[xlen](k requires 0 <= k < xlen => c.value[k]);
    assert csrVal[..] == c.value;
    code, draws := [], [];
    for n := 0 to |ops|
      invariant |draws| == n && ValidDraws(draws) && fresh(csrVal)
      invariant Emitted(c, xlen, src, dst, CsrItems(ops, xlen, draws, lastCsr), code, csrVal[..])
    {
      var lastOp := lastCsr && ops[n] == ops[|ops| - 1];
      ghost var items := CsrItems(ops, xlen, draws, lastCsr);
      var draw;
      code, draw := GenOp(c, ops[n], src, dst, lastOp, csrVal, code, items);
      CsrItemsSnoc(ops, xlen, draws, lastCsr, draw);
      draws := draws + [draw];
    }
  }

  lemma ProgramSnoc(csrs: seq<Csr>, ops: seq<Op>, xlen: nat, src: nat, dst: nat,
                    draws: seq<seq<BitString>>, d: seq<BitString>)
    requires |draws| < |csrs| && ValidAllDraws(ops, draws) && ValidCsrs(csrs, xlen)
    requires |d| == |ops| && ValidDraws(d)
    ensures ValidAllDraws(ops, draws + [d])
    ensures ItemsOf(csrs, ops, xlen, draws + [d], |draws|) == CsrItems(ops, xlen, d, |draws| == |csrs| - 1)
    ensures var n := |draws|;
            Program(csrs, ops, xlen, src, dst, draws + [d]) ==
            Program(csrs, ops, xlen, src, dst, draws) +
            ItemsCode(csrs[n], xlen, src, dst, CsrItems(ops, xlen, d, n == |csrs| - 1))
  {
    var all := draws + [d];
    assert all[..|draws|] == draws && all[|draws|] == d;
    assert ItemsOf(csrs, ops, xlen, all, |draws|) == CsrItems(ops, xlen, d, |draws| == |csrs| - 1);
  }

  /** Two distinct registers out of x1..x15. */
  method DrawRegisters() returns (src: nat, dst: nat)
    ensures 1 <= src < 16 && 1 <= dst < 16 && src != dst
  {
    src :| 1 <= src < 16;
    var spare := if src == 1 then 2 else 1;
    assert 1 <= spare < 16 && spare != src;
    dst :| 1 <= dst < 16 && dst != src;
  }

  /** One test file: two distinct registers out of x1..x15, then every CSR with every operation. */
  method GenCsrTest(csrs: seq<Csr>, ops: seq<Op>, xlen: nat)
    returns (code: seq<Asm>, src: nat, dst: nat, draws: seq<seq<BitString>>)
    requires ValidCsrs(csrs, xlen)
    ensures 1 <= src < 16 && 1 <= dst < 16 && src != dst
    ensures |draws| == |csrs| && ValidAllDraws(ops, draws)
    ensures code == Program(csrs, ops, xlen, src, dst, draws)
  {
    src, dst := DrawRegisters();
    code, draws := [], [];
    for n := 0 to |csrs|
      invariant |draws| == n && ValidAllDraws(ops, draws)
      invariant code == Program(csrs, ops, xlen, src, dst, draws)
    {
      var c, d := GenCsr(csrs[n], xlen, ops, src, dst, n == |csrs| - 1);
      ProgramSnoc(csrs, ops, xlen, src, dst, draws, d);
      draws := draws + [d];
      code := code + c;
    }
  }
}
