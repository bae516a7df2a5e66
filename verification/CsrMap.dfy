/** The CSR description the generator loads, and the field-by-field CSR model it keeps (scripts/gen_csr_test.py). */
module CsrMap {
  import opened Bits
  import opened Hex

  /** A `warl_legalize` fragment as the function it computes: (val_in, val_orig) to val_out. */
  type Legalizer = (nat, nat) -> nat

  datatype FieldType = WPRI | WLRL | WARL | R

  /** One field of the YAML description. */
  datatype FieldDesc = FieldDesc(ftype: FieldType, resetVal: nat, msb: nat, lsb: nat, legalize: Option<Legalizer>)

  datatype CsrDesc = CsrDesc(name: string, address: nat, fields: seq<FieldDesc>)

  /** `SimpleWriteCSRField` and `LegalizeWriteCSRField`; `lo` and `hi` are the two entries of `pos`. */
  datatype WriteField =
    | Simple(mask: BitString, lo: nat, hi: nat, readOnly: bool)
    | Legalize(mask: BitString, lo: nat, hi: nat, readOnly: bool, f: Legalizer)

  datatype Csr = Csr(address: nat, value: BitString, fields: seq<WriteField>, readMask: BitString)

  function Size(d: FieldDesc): nat
    requires d.lsb <= d.msb
  {
    d.msb - d.lsb + 1
  }

  /** A legaliser whose result `BitArray(uint = ..., length = ...)` accepts. */
  ghost predicate Fits(f: Legalizer, len: nat) {
    forall a: nat, b: nat {:trigger f(a, b)} :: a < Pow2(len) && b < Pow2(len) ==> f(a, b) < Pow2(len)
  }

  /** What the bit string library demands of one field description; anything else raises. */
  ghost predicate ValidField(d: FieldDesc, xlen: nat) {
    && d.lsb <= d.msb < xlen
    && d.resetVal < Pow2(Size(d))
    && (d.legalize.Some? ==> Fits(d.legalize.value, Size(d)))
  }

  ghost predicate ValidFields(ds: seq<FieldDesc>, xlen: nat) {
    forall i :: 0 <= i < |ds| ==> ValidField(ds[i], xlen)
  }

  predicate Covers(d: FieldDesc, bit: int) {
    d.lsb <= bit <= d.msb
  }

  ghost predicate DisjointFields(ds: seq<FieldDesc>) {
    forall i, j, bit :: 0 <= i < j < |ds| && Covers(ds[i], bit) ==> !Covers(ds[j], bit)
  }

  ghost predicate ValidWriteField(w: WriteField, xlen: nat) {
    && w.lo <= w.hi < xlen
    && |w.mask| == w.hi - w.lo + 1
    && (w.Legalize? ==> Fits(w.f, w.hi - w.lo + 1))
  }

  ghost predicate ValidWriteFields(ws: seq<WriteField>, xlen: nat) {
    forall i :: 0 <= i < |ws| ==> ValidWriteField(ws[i], xlen)
  }

  // ---------------------------------------------------------------- in-place bit strings

  function Overwritten(s: BitString, bits: BitString, pos: nat): (r: BitString)
    requires pos + |bits| <= |s|
    ensures |r| == |s|
    ensures forall k :: 0 <= k < |s| ==> r[k] == if pos <= k < pos + |bits| then bits[k - pos] else s[k]
  {
    s[..pos] + bits + s[pos + |bits|..]
  }

  method Overwrite(a: array<bool>, bits: BitString, pos: nat)
    requires pos + |bits| <= a.Length
    modifies a
    ensures a[..] == Overwritten(old(a[..]), bits, pos)
  {
    for k := 0 to |bits|
      invariant forall j :: 0 <= j < a.Length ==>
        a[j] == if pos <= j < pos + k then bits[j - pos] else old(a[j])
    {
      a[pos + k] := bits[k];
    }
  }

  // ---------------------------------------------------------------- field writes

  /** The bits one field's `write` puts in its place, before masking. */
  function NewBits(w: WriteField, xlen: nat, v: BitString, prev: BitString): (r: BitString)
    requires ValidWriteField(w, xlen) && |v| == |prev| == xlen
    ensures |r| == w.hi - w.lo + 1
  {
    var slice := v[w.lo..w.hi + 1];
    match w
    case Simple(_, _, _, _) => slice
    case Legalize(_, _, _, _, f) => FromNat(f(ToNat(slice), ToNat(prev[w.lo..w.hi + 1])), w.hi - w.lo + 1)
  }

  /** The value one field's `write` leaves in the CSR. */
  function WriteOne(w: WriteField, xlen: nat, v: BitString, prev: BitString): (r: BitString)
    requires ValidWriteField(w, xlen) && |v| == |prev| == xlen
    ensures |r| == xlen
  {
    if w.readOnly then prev else Overwritten(prev, And(w.mask, NewBits(w, xlen, v, prev)), w.lo)
  }

  /** The value the fields leave when written one after the other. */
  function WriteAll(ws: seq<WriteField>, xlen: nat, v: BitString, prev: BitString): (r: BitString)
    requires ValidWriteFields(ws, xlen) && |v| == |prev| == xlen
    ensures |r| == xlen
  {
    if ws == [] then prev
    else WriteOne(ws[|ws| - 1], xlen, v, WriteAll(ws[..|ws| - 1], xlen, v, prev))
  }

  method FieldWrite(w: WriteField, v: BitString, csrVal: array<bool>)
    requires |v| == csrVal.Length && ValidWriteField(w, csrVal.Length)
    modifies csrVal
    ensures csrVal[..] == WriteOne(w, csrVal.Length, v, old(csrVal[..]))
  {
    if !w.readOnly {
      var slice := v[w.lo..w.hi + 1];
      match w {
        case Simple(mask, lo, _, _) =>
          ghost var before := csrVal[..];
          Overwrite(csrVal, And(mask, slice), lo);
          assert slice == NewBits(w, csrVal.Length, v, before);
        case Legalize(mask, lo, hi, _, f) =>
          ghost var before := csrVal[..];
          var orig := csrVal[..][lo..hi + 1];
          var legal := f(ToNat(slice), ToNat(orig));
          assert FromNat(legal, hi - lo + 1) == NewBits(w, csrVal.Length, v, before);
          Overwrite(csrVal, And(mask, FromNat(legal, hi - lo + 1)), lo);
      }
    }
  }

  method CsrWrite(v: BitString, csrVal: array<bool>, ws: seq<WriteField>)
    requires |v| == csrVal.Length && ValidWriteFields(ws, csrVal.Length)
    modifies csrVal
    ensures csrVal[..] == WriteAll(ws, csrVal.Length, v, old(csrVal[..]))
  {
    ghost var xlen := csrVal.Length;
    for i := 0 to |ws|
      invariant csrVal[..] == WriteAll(ws[..i], xlen, v, old(csrVal[..]))
    {
      FieldWrite(ws[i], v, csrVal);
      assert ws[..i + 1][..i] == ws[..i];
    }
    assert ws[..|ws|] == ws;
  }

  // ---------------------------------------------------------------- loading the description

  /** The write field made for one non-WPRI description. */
  function MakeField(d: FieldDesc, xlen: nat): (w: WriteField)
    requires d.lsb <= d.msb < xlen
  {
    var mask := Ones(Size(d));
    if d.ftype == WARL && d.legalize.Some?
    then Legalize(mask, xlen - 1 - d.msb, xlen - 1 - d.lsb, d.ftype == R, d.legalize.value)
    else Simple(mask, xlen - 1 - d.msb, xlen - 1 - d.lsb, d.ftype == R)
  }

  function MakeFields(ds: seq<FieldDesc>, xlen: nat): (ws: seq<WriteField>)
    requires ValidFields(ds, xlen)
    ensures ValidWriteFields(ws, xlen)
  {
    if ds == [] then []
    else
      var d := ds[|ds| - 1];
      var front := MakeFields(ds[..|ds| - 1], xlen);
      if d.ftype == WPRI then front else front + [MakeField(d, xlen)]
  }

  function ResetValue(ds: seq<FieldDesc>, xlen: nat): (r: BitString)
    requires ValidFields(ds, xlen)
    ensures |r| == xlen
  {
    if ds == [] then Zeros(xlen)
    else
      var d := ds[|ds| - 1];
      var front := ResetValue(ds[..|ds| - 1], xlen);
      if d.ftype == WPRI then front else Overwritten(front, FromNat(d.resetVal, Size(d)), xlen - 1 - d.msb)
  }

  function ReadMask(ds: seq<FieldDesc>, xlen: nat): (r: BitString)
    requires ValidFields(ds, xlen)
    ensures |r| == xlen
  {
    if ds == [] then Zeros(xlen)
    else
      var d := ds[|ds| - 1];
      var front := ReadMask(ds[..|ds| - 1], xlen);
      if d.ftype == WPRI then front else Overwritten(front, Ones(Size(d)), xlen - 1 - d.msb)
  }

  function LoadedCsr(d: CsrDesc, xlen: nat): Csr
    requires ValidFields(d.fields, xlen)
  {
    Csr(d.address, ResetValue(d.fields, xlen), MakeFields(d.fields, xlen), ReadMask(d.fields, xlen))
  }

  /** What one more field adds to the loaded CSR. */
  lemma LoadedSnoc(ds: seq<FieldDesc>, i: nat, xlen: nat)
    requires ValidFields(ds, xlen) && i < |ds|
    ensures var d, at := ds[i], xlen - 1 - ds[i].msb;
            var value, mask, ws := ResetValue(ds[..i], xlen), ReadMask(ds[..i], xlen), MakeFields(ds[..i], xlen);
            if d.ftype == WPRI
            then ResetValue(ds[..i + 1], xlen) == value && ReadMask(ds[..i + 1], xlen) == mask
                 && MakeFields(ds[..i + 1], xlen) == ws
            else ResetValue(ds[..i + 1], xlen) == Overwritten(value, FromNat(d.resetVal, Size(d)), at)
                 && ReadMask(ds[..i + 1], xlen) == Overwritten(mask, Ones(Size(d)), at)
                 && MakeFields(ds[..i + 1], xlen) == ws + [MakeField(d, xlen)]
  {
    assert ds[..i + 1][..i] == ds[..i];
  }

  /** The body of the loop over CSR descriptions: reset value, write fields and read mask, field by field. */
  method LoadCsr(d: CsrDesc, xlen: nat) returns (c: Csr)
    requires ValidFields(d.fields, xlen)
    ensures c == LoadedCsr(d, xlen)
  {
    var ds := d.fields;
    var value, mask := new bool[xlen](_ => false), new bool[xlen](_ => false);
    var ws: seq<WriteField> := [];
    assert value[..] == Zeros(xlen) && mask[..] == Zeros(xlen);
    for i := 0 to |ds|
      invariant value != mask && fresh(value) && fresh(mask)
      invariant value[..] == ResetValue(ds[..i], xlen)
      invariant mask[..] == ReadMask(ds[..i], xlen)
      invariant ws == MakeFields(ds[..i], xlen)
    {
      var f := ds[i];
      LoadedSnoc(ds, i, xlen);
      if f.ftype != WPRI {
        Overwrite(mask, Ones(Size(f)), xlen - 1 - f.msb);
        Overwrite(value, FromNat(f.resetVal, Size(f)), xlen - 1 - f.msb);
        ws := ws + [MakeField(f, xlen)];
      }
    }
    assert ds[..|ds|] == ds;
    c := Csr(d.address, value[..], ws, mask[..]);
  }

  method GetCsrMap(descs: seq<CsrDesc>, xlen: nat) returns (csrs: seq<Csr>)
    requires forall i :: 0 <= i < |descs| ==> ValidFields(descs[i].fields, xlen)
    ensures |csrs| == |descs|
    ensures forall i :: 0 <= i < |descs| ==> csrs[i] == LoadedCsr(descs[i], xlen)
  {
    csrs := [];
    for n := 0 to |descs|
      invariant |csrs| == n
      invariant forall i :: 0 <= i < n ==> csrs[i] == LoadedCsr(descs[i], xlen)
    {
      var c := LoadCsr(descs[n], xlen);
      csrs := csrs + [c];
    }
  }
}
