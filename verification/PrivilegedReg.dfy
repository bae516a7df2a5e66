/**
 * Registers made of fields (pygen/pygen_src/riscv_reg.py) and two privileged layouts
 * (pygen/pygen_src/riscv_privil_reg.py).
 */
module PrivilegedReg {
  import opened Bits
  import opened Words

  datatype Access = WPRI | WLRL | WARL

  datatype Field = Field(name: string, width: nat, access: Access, resetVal: nat, hardWired: bool, val: nat)

  // ---------------------------------------------------------------- the packed value

  function Offset(fld: seq<Field>, i: nat): nat
    requires i <= |fld|
  {
    if i == 0 then 0 else Offset(fld, i - 1) + fld[i - 1].width
  }

  /** The value after the fields from `i` up have been shifted in, the last one first. */
  function Packed(fld: seq<Field>, i: nat): nat
    requires i <= |fld|
    decreases |fld| - i
  {
    if i == |fld| then 0 else BitOr(Packed(fld, i + 1) * Pow2(fld[i].width), fld[i].val)
  }

  ghost predicate Fitting(fld: seq<Field>) {
    forall i :: 0 <= i < |fld| ==> fld[i].val < Pow2(fld[i].width)
  }

  /** What the fields below `i` contribute. */
  ghost function Low(fld: seq<Field>, i: nat): nat
    requires i <= |fld|
  {
    if i == 0 then 0 else Low(fld, i - 1) + fld[i - 1].val * Pow2(Offset(fld, i - 1))
  }

  lemma {:induction false} LowBound(fld: seq<Field>, i: nat)
    requires i <= |fld| && Fitting(fld)
    ensures Low(fld, i) < Pow2(Offset(fld, i))
  {
    if i == 0 {
    } else {
      var f, p := fld[i - 1], Pow2(Offset(fld, i - 1));
      LowBound(fld, i - 1);
      PowSum(Offset(fld, i - 1), f.width);
      FieldAbove(p, Pow2(f.width), f.val, Low(fld, i - 1));
    }
  }

  lemma FieldAbove(p: nat, w: nat, v: nat, low: nat)
    requires low < p && v < w
    ensures low + v * p < p * w
  {
    MulMonotone(p, v + 1, w);
    assert p * (v + 1) == v * p + p;
  }

  lemma {:induction false} SplitAt(fld: seq<Field>, i: nat)
    requires i <= |fld| && Fitting(fld)
    ensures Packed(fld, 0) == Low(fld, i) + Pow2(Offset(fld, i)) * Packed(fld, i)
  {
    if i == 0 {
    } else {
      var f, p, q := fld[i - 1], Pow2(Offset(fld, i - 1)), Packed(fld, i);
      assert Packed(fld, i - 1) == BitOr(q * Pow2(f.width), f.val);
      SplitAt(fld, i - 1);
      OrOfShifted(q, f.width, f.val);
      PowSum(Offset(fld, i - 1), f.width);
      Distribute(p, q, Pow2(f.width), f.val);
    }
  }

  lemma Distribute(p: nat, q: nat, w: nat, v: nat)
    ensures p * (q * w + v) == v * p + (p * w) * q
  {
  }

  function Window(v: nat, at: nat, width: nat): nat {
    (v / Pow2(at)) % Pow2(width)
  }

  /** Every field is read back from its own bits. */
  lemma FieldRecovered(fld: seq<Field>, i: nat)
    requires i < |fld| && Fitting(fld)
    ensures Window(Packed(fld, 0), Offset(fld, i), fld[i].width) == fld[i].val
  {
    SplitAt(fld, i);
    LowBound(fld, i);
    DivUnique(Packed(fld, 0), Pow2(Offset(fld, i)), Packed(fld, i), Low(fld, i));
    var q, w := Packed(fld, i + 1), Pow2(fld[i].width);
    OrOfShifted(q, fld[i].width, fld[i].val);
    DivUnique(q * w + fld[i].val, w, q, fld[i].val);
  }

  lemma PackedFits(fld: seq<Field>)
    requires Fitting(fld)
    ensures Packed(fld, 0) < Pow2(Offset(fld, |fld|))
  {
    SplitAt(fld, |fld|);
    LowBound(fld, |fld|);
  }

  ghost predicate SameShape(a: seq<Field>, b: seq<Field>) {
    |a| == |b| && forall i :: 0 <= i < |a| ==> a[i].width == b[i].width
  }

  lemma {:induction false} SameOffset(a: seq<Field>, b: seq<Field>, i: nat)
    requires SameShape(a, b) && i <= |a|
    ensures Offset(a, i) == Offset(b, i)
  {
    if i == 0 {
    } else {
      SameOffset(a, b, i - 1);
    }
  }

  /** Different field values give different registers. */
  lemma PackedInjective(a: seq<Field>, b: seq<Field>)
    requires SameShape(a, b) && Fitting(a) && Fitting(b) && Packed(a, 0) == Packed(b, 0)
    ensures forall i :: 0 <= i < |a| ==> a[i].val == b[i].val
  {
    forall i | 0 <= i < |a|
      ensures a[i].val == b[i].val
    {
      SameOffset(a, b, i);
      FieldRecovered(a, i);
      FieldRecovered(b, i);
    }
  }

  // ---------------------------------------------------------------- the register

  /** The position of the last field of this name. */
  function Find(fld: seq<Field>, name: string, n: nat): (r: int)
    requires n <= |fld|
    ensures -1 <= r < n
    ensures r >= 0 ==> fld[r].name == name && forall j :: r < j < n ==> fld[j].name != name
    ensures r == -1 ==> forall j :: 0 <= j < n ==> fld[j].name != name
  {
    if n == 0 then -1 else if fld[n - 1].name == name then n - 1 else Find(fld, name, n - 1)
  }

  class Reg {
    var fld: seq<Field>
    var val: nat

    constructor ()
      ensures fld == []
    {
      fld, val := [], 0;
    }

    method AddField(name: string, width: nat, access: Access, resetVal: nat)
      modifies `fld
      ensures fld == old(fld) + [Field(name, width, access, resetVal, false, 0)]
    {
      fld := fld + [Field(name, width, access, resetVal, false, 0)];
    }

    /** Sets the last field of this name; `ok` is false where the program exits for want of one. */
    method SetField(name: string, v: nat, hardWired: bool) returns (ok: bool, ghost at: int)
      modifies `fld
      ensures at == Find(old(fld), name, |old(fld)|) && (ok <==> at >= 0)
      ensures !ok ==> fld == old(fld)
      ensures ok ==> var f := old(fld)[at];
                fld == old(fld)[at := f.(val := v, hardWired := hardWired,
                                         resetVal := if hardWired then v else f.resetVal)]
    {
      var i := |fld|;
      while i > 0
        invariant 0 <= i <= |fld|
        invariant Find(fld, name, |fld|) == Find(fld, name, i)
      {
        i := i - 1;
        if fld[i].name == name {
          var f := fld[i];
          fld := fld[i := f.(val := v, hardWired := hardWired, resetVal := if hardWired then v else f.resetVal)];
          return true, i;
        }
      }
      return false, -1;
    }

    /** Packs the fields; `ok` is false where their widths do not add up to XLEN. */
    method GetVal(xlen: nat) returns (ok: bool)
      modifies `val
      ensures ok <==> Offset(fld, |fld|) == xlen
      ensures ok ==> val == Packed(fld, 0)
      ensures !ok ==> val == old(val)
    {
      var total, i := 0, |fld|;
      while i > 0
        invariant 0 <= i <= |fld| && total + Offset(fld, i) == Offset(fld, |fld|)
      {
        i := i - 1;
        total := total + fld[i].width;
      }
      if total != xlen {
        return false;
      }
      val := 0;
      i := |fld|;
      while i > 0
        invariant 0 <= i <= |fld| && val == Packed(fld, i)
      {
        i := i - 1;
        val := BitOr(val * Pow2(fld[i].width), fld[i].val);
      }
      return true;
    }

    /** `init_reg` for MSTATUS: interrupt enables, modes, memory control, and the upper part, from bit 0 up. */
    method InitMstatus(xlen: nat)
      requires IsXlen(xlen)
      modifies `fld
      ensures fld == old(fld) + MstatusFields(xlen)
    {
      AddInterruptFields();
      AddModeFields();
      AddControlFields();
      AddUpperFields(xlen);
      Regrouped(old(fld), InterruptFields(), ModeFields(), ControlFields(), UpperFields(xlen));
    }

    method AddInterruptFields()
      modifies `fld
      ensures fld == old(fld) + InterruptFields()
    {
      AddField("UIE", 1, WARL, 0);
      AddField("SIE", 1, WARL, 0);
      AddField("WPRI0", 1, WPRI, 0);
      AddField("MIE", 1, WARL, 0);
      AddField("UPIE", 1, WARL, 0);
      AddField("SPIE", 1, WARL, 0);
      AddField("WPRI1", 1, WPRI, 0);
      AddField("MPIE", 1, WARL, 0);
    }

    method AddModeFields()
      modifies `fld
      ensures fld == old(fld) + ModeFields()
    {
      AddField("SPP", 1, WLRL, 0);
      AddField("VS", 2, WARL, 0);
      AddField("MPP", 2, WLRL, 0);
      AddField("FS", 2, WARL, 0);
      AddField("XS", 2, WARL, 0);
    }

    method AddControlFields()
      modifies `fld
      ensures fld == old(fld) + ControlFields()
    {
      AddField("MPRV", 1, WARL, 0);
      AddField("SUM", 1, WARL, 0);
      AddField("MXR", 1, WARL, 0);
      AddField("TVM", 1, WARL, 0);
      AddField("TW", 1, WARL, 0);
      AddField("TSR", 1, WARL, 0);
    }

    method AddUpperFields(xlen: nat)
      requires IsXlen(xlen)
      modifies `fld
      ensures fld == old(fld) + UpperFields(xlen)
    {
      if xlen == 32 {
        AddField("WPRI3", 8, WPRI, 0);
      } else {
        AddField("WPRI3", 9, WPRI, 0);
        AddField("UXL", 2, WARL, 0);
        AddField("SXL", 2, WARL, 0);
        AddField("WPRI4", xlen - 37, WPRI, 0);
      }
      AddField("SD", 1, WARL, 0);
    }

    /** `init_reg` for MIE. */
    method InitMie(xlen: nat)
      requires IsXlen(xlen)
      modifies `fld
      ensures fld == old(fld) + MieFields(xlen)
    {
      AddMieLow();
      AddMieHigh(xlen);
    }

    method AddMieLow()
      modifies `fld
      ensures fld == old(fld) + MieLowFields()
    {
      AddField("USIE", 1, WARL, 0);
      AddField("SSIE", 1, WARL, 0);
      AddField("WPRI0", 1, WPRI, 0);
      AddField("MSIE", 1, WARL, 0);
      AddField("UTIE", 1, WARL, 0);
      AddField("STIE", 1, WARL, 0);
      AddField("WPRI1", 1, WPRI, 0);
    }

    method AddMieHigh(xlen: nat)
      requires IsXlen(xlen)
      modifies `fld
      ensures fld == old(fld) + MieHighFields(xlen)
    {
      AddField("MTIE", 1, WARL, 0);
      AddField("UEIE", 1, WARL, 0);
      AddField("SEIE", 1, WARL, 0);
      AddField("WPEI2", 1, WPRI, 0);
      AddField("MEIE", 1, WARL, 0);
      AddField("WPRI3", xlen - 12, WPRI, 0);
    }
  }

  /** Setting one field leaves the bits of every other as they were. */
  lemma SetFieldIsLocal(fld: seq<Field>, after: seq<Field>, at: nat, i: nat)
    requires at < |fld| && i < |fld| && Fitting(fld) && Fitting(after)
    requires |after| == |fld| && after[at].width == fld[at].width && after == fld[at := after[at]]
    ensures Offset(after, i) == Offset(fld, i)
    ensures Window(Packed(after, 0), Offset(fld, i), fld[i].width) ==
            if i == at then after[at].val else Window(Packed(fld, 0), Offset(fld, i), fld[i].width)
  {
    SameOffset(after, fld, i);
    FieldRecovered(after, i);
    FieldRecovered(fld, i);
  }

  // ---------------------------------------------------------------- layouts

  function Fresh(name: string, width: nat, access: Access): Field {
    Field(name, width, access, 0, false, 0)
  }

  function InterruptFields(): seq<Field> {
    [Fresh("UIE", 1, WARL), Fresh("SIE", 1, WARL), Fresh("WPRI0", 1, WPRI), Fresh("MIE", 1, WARL),
     Fresh("UPIE", 1, WARL), Fresh("SPIE", 1, WARL), Fresh("WPRI1", 1, WPRI), Fresh("MPIE", 1, WARL)]
  }

  function ModeFields(): seq<Field> {
    [Fresh("SPP", 1, WLRL), Fresh("VS", 2, WARL), Fresh("MPP", 2, WLRL), Fresh("FS", 2, WARL), Fresh("XS", 2, WARL)]
  }

  function ControlFields(): seq<Field> {
    [Fresh("MPRV", 1, WARL), Fresh("SUM", 1, WARL), Fresh("MXR", 1, WARL), Fresh("TVM", 1, WARL),
     Fresh("TW", 1, WARL), Fresh("TSR", 1, WARL)]
  }

  function UpperFields(xlen: nat): seq<Field>
    requires IsXlen(xlen)
  {
    if xlen == 32 then [Fresh("WPRI3", 8, WPRI), Fresh("SD", 1, WARL)]
    else [Fresh("WPRI3", 9, WPRI), Fresh("UXL", 2, WARL), Fresh("SXL", 2, WARL),
          Fresh("WPRI4", xlen - 37, WPRI), Fresh("SD", 1, WARL)]
  }

  function MstatusFields(xlen: nat): seq<Field>
    requires IsXlen(xlen)
  {
    InterruptFields() + ModeFields() + ControlFields() + UpperFields(xlen)
  }

  lemma Regrouped(a: seq<Field>, b: seq<Field>, c: seq<Field>, d: seq<Field>, e: seq<Field>)
    ensures a + b + c + d + e == a + (b + c + d + e)
  {
  }

  function MieLowFields(): seq<Field> {
    [Fresh("USIE", 1, WARL), Fresh("SSIE", 1, WARL), Fresh("WPRI0", 1, WPRI), Fresh("MSIE", 1, WARL),
     Fresh("UTIE", 1, WARL), Fresh("STIE", 1, WARL), Fresh("WPRI1", 1, WPRI)]
  }

  function MieHighFields(xlen: nat): seq<Field>
    requires IsXlen(xlen)
  {
    [Fresh("MTIE", 1, WARL), Fresh("UEIE", 1, WARL), Fresh("SEIE", 1, WARL), Fresh("WPEI2", 1, WPRI),
     Fresh("MEIE", 1, WARL), Fresh("WPRI3", xlen - 12, WPRI)]
  }

  function MieFields(xlen: nat): seq<Field>
    requires IsXlen(xlen)
  {
    MieLowFields() + MieHighFields(xlen)
  }

  /** A field's name, lowest bit, width and kind of access. */
  datatype Place = Place(name: string, low: nat, width: nat, access: Access)

  /** MSTATUS as section 3.1.6 of the RISC-V Privileged Architecture has it, and the access each field is to have. */
  function MstatusPlaces(xlen: nat): seq<Place> {
    InterruptPlaces() + ModePlaces() + ControlPlaces() + UpperPlaces(xlen)
  }

  function InterruptPlaces(): seq<Place> {
    [Place("UIE", 0, 1, WARL), Place("SIE", 1, 1, WARL), Place("WPRI0", 2, 1, WPRI), Place("MIE", 3, 1, WARL),
     Place("UPIE", 4, 1, WARL), Place("SPIE", 5, 1, WARL), Place("WPRI1", 6, 1, WPRI),
     Place("MPIE", 7, 1, WARL)]
  }

  function ModePlaces(): seq<Place> {
    [Place("SPP", 8, 1, WLRL), Place("VS", 9, 2, WARL), Place("MPP", 11, 2, WLRL), Place("FS", 13, 2, WARL),
     Place("XS", 15, 2, WARL)]
  }

  function ControlPlaces(): seq<Place> {
    [Place("MPRV", 17, 1, WARL), Place("SUM", 18, 1, WARL), Place("MXR", 19, 1, WARL),
     Place("TVM", 20, 1, WARL), Place("TW", 21, 1, WARL), Place("TSR", 22, 1, WARL)]
  }

  function UpperPlaces(xlen: nat): seq<Place> {
    if xlen == 32 then [Place("WPRI3", 23, 8, WPRI), Place("SD", 31, 1, WARL)]
    else [Place("WPRI3", 23, 9, WPRI), Place("UXL", 32, 2, WARL), Place("SXL", 34, 2, WARL),
          Place("WPRI4", 36, 27, WPRI), Place("SD", 63, 1, WARL)]
  }

  /** MIE as section 3.1.9 has it. */
  function MiePlaces(xlen: nat): seq<Place>
    requires IsXlen(xlen)
  {
    [Place("USIE", 0, 1, WARL), Place("SSIE", 1, 1, WARL), Place("WPRI0", 2, 1, WPRI),
     Place("MSIE", 3, 1, WARL), Place("UTIE", 4, 1, WARL), Place("STIE", 5, 1, WARL),
     Place("WPRI1", 6, 1, WPRI), Place("MTIE", 7, 1, WARL), Place("UEIE", 8, 1, WARL),
     Place("SEIE", 9, 1, WARL), Place("WPEI2", 10, 1, WPRI), Place("MEIE", 11, 1, WARL),
     Place("WPRI3", 12, xlen - 12, WPRI)]
  }

  /** The field of this name, as `set_field` finds it, lies at `p`; it holds and resets to zero. */
  predicate Placed(fld: seq<Field>, p: Place) {
    var i := Find(fld, p.name, |fld|);
    i >= 0 && Offset(fld, i) == p.low && fld[i] == FieldOf(p)
  }

  function FieldOf(p: Place): Field {
    Field(name := p.name, width := p.width, access := p.access, resetVal := 0, hardWired := false, val := 0)
  }

  /** There is a field for each place, in the same order. */
  ghost predicate Matches(fld: seq<Field>, places: seq<Place>) {
    && |fld| == |places|
    && forall i :: 0 <= i < |fld| ==> fld[i] == FieldOf(places[i])
  }

  /** The places fill the bits from `low` to `high`, each from where the one before it ends. */
  ghost predicate Consecutive(places: seq<Place>, low: nat, high: nat) {
    && places != [] && places[0].low == low
    && (forall i :: 1 <= i < |places| ==> places[i].low == places[i - 1].low + places[i - 1].width)
    && places[|places| - 1].low + places[|places| - 1].width == high
  }

  ghost predicate DistinctNames(places: seq<Place>) {
    forall i, j :: 0 <= i < j < |places| ==> places[i].name != places[j].name
  }

  lemma {:induction false} OffsetOfPlace(fld: seq<Field>, places: seq<Place>, width: nat, i: nat)
    requires Matches(fld, places) && Consecutive(places, 0, width) && i < |fld|
    ensures Offset(fld, i) == places[i].low
  {
    if i == 0 {
    } else {
      OffsetOfPlace(fld, places, width, i - 1);
    }
  }

  /** Fields that match such places lie at them, each found by its name. */
  lemma {:induction false} PlacedByName(fld: seq<Field>, places: seq<Place>, width: nat)
    requires Matches(fld, places) && Consecutive(places, 0, width) && DistinctNames(places)
    ensures forall p :: p in places ==> Placed(fld, p)
    ensures Offset(fld, |fld|) == width
  {
    OffsetOfPlace(fld, places, width, |fld| - 1);
    forall p | p in places
      ensures Placed(fld, p)
    {
      var i :| 0 <= i < |places| && places[i] == p;
      FoundByName(fld, places, i);
      OffsetOfPlace(fld, places, width, i);
    }
  }

  lemma FoundByName(fld: seq<Field>, places: seq<Place>, i: nat)
    requires Matches(fld, places) && DistinctNames(places) && i < |fld|
    ensures Find(fld, places[i].name, |fld|) == i
  {
    var f := Find(fld, places[i].name, |fld|);
    assert fld[i].name == places[i].name;
    assert places[f].name == places[i].name;
  }

  lemma MatchesTogether(f: seq<Field>, a: seq<Place>, g: seq<Field>, b: seq<Place>)
    requires Matches(f, a) && Matches(g, b)
    ensures Matches(f + g, a + b)
  {
  }

  lemma MstatusMatches(xlen: nat)
    requires IsXlen(xlen)
    ensures Matches(MstatusFields(xlen), MstatusPlaces(xlen))
  {
    var a, b, c, d := InterruptPlaces(), ModePlaces(), ControlPlaces(), UpperPlaces(xlen);
    assert Matches(InterruptFields(), a);
    assert Matches(ModeFields(), b);
    assert Matches(ControlFields(), c);
    assert Matches(UpperFields(xlen), d);
    MatchesTogether(InterruptFields(), a, ModeFields(), b);
    MatchesTogether(InterruptFields() + ModeFields(), a + b, ControlFields(), c);
    MatchesTogether(InterruptFields() + ModeFields() + ControlFields(), a + b + c, UpperFields(xlen), d);
  }

  lemma ConsecutiveTogether(a: seq<Place>, b: seq<Place>, low: nat, mid: nat, high: nat)
    requires Consecutive(a, low, mid) && Consecutive(b, mid, high)
    ensures Consecutive(a + b, low, high)
  {
    forall i | 1 <= i < |a + b|
      ensures (a + b)[i].low == (a + b)[i - 1].low + (a + b)[i - 1].width
    {
      if i > |a| {
        assert b[i - |a|].low == b[i - |a| - 1].low + b[i - |a| - 1].width;
      }
    }
  }

  lemma MstatusConsecutive(xlen: nat)
    requires IsXlen(xlen)
    ensures Consecutive(MstatusPlaces(xlen), 0, xlen)
  {
    var a, b, c, d := InterruptPlaces(), ModePlaces(), ControlPlaces(), UpperPlaces(xlen);
    ConsecutiveTogether(a, b, 0, 8, 17);
    ConsecutiveTogether(a + b, c, 0, 17, 23);
    ConsecutiveTogether(a + b + c, d, 0, 23, xlen);
  }

  ghost predicate DisjointNames(a: seq<Place>, b: seq<Place>) {
    forall i, j :: 0 <= i < |a| && 0 <= j < |b| ==> a[i].name != b[j].name
  }

  lemma DistinctTogether(a: seq<Place>, b: seq<Place>)
    requires DistinctNames(a) && DistinctNames(b) && DisjointNames(a, b)
    ensures DistinctNames(a + b)
  {
  }

  lemma DisjointTogether(a: seq<Place>, b: seq<Place>, c: seq<Place>)
    requires DisjointNames(a, c) && DisjointNames(b, c)
    ensures DisjointNames(a + b, c)
  {
  }

  lemma LowNames()
    ensures DistinctNames(InterruptPlaces()) && DistinctNames(ModePlaces())
    ensures DisjointNames(InterruptPlaces(), ModePlaces())
  {
  }

  lemma ControlNames()
    ensures DistinctNames(ControlPlaces())
    ensures DisjointNames(InterruptPlaces(), ControlPlaces()) && DisjointNames(ModePlaces(), ControlPlaces())
  {
  }

  lemma UpperNames(xlen: nat)
    ensures DistinctNames(UpperPlaces(xlen)) && DisjointNames(ControlPlaces(), UpperPlaces(xlen))
  {
  }

  lemma UpperAndLowNames(xlen: nat)
    ensures DisjointNames(InterruptPlaces(), UpperPlaces(xlen))
  {
  }

  lemma UpperAndModeNames(xlen: nat)
    ensures DisjointNames(ModePlaces(), UpperPlaces(xlen))
  {
  }

  lemma MstatusDistinct(xlen: nat)
    ensures DistinctNames(MstatusPlaces(xlen))
  {
    var a, b, c, d := InterruptPlaces(), ModePlaces(), ControlPlaces(), UpperPlaces(xlen);
    LowNames();
    DistinctTogether(a, b);
    ControlNames();
    DisjointTogether(a, b, c);
    DistinctTogether(a + b, c);
    UpperNames(xlen);
    UpperAndLowNames(xlen);
    UpperAndModeNames(xlen);
    DisjointTogether(a, b, d);
    DisjointTogether(a + b, c, d);
    DistinctTogether(a + b + c, d);
  }

  /** Every field of MSTATUS, looked up by its name, lies where the architecture has it; they fill XLEN bits. */
  lemma MstatusLayout(xlen: nat)
    requires IsXlen(xlen)
    ensures forall p :: p in MstatusPlaces(xlen) ==> Placed(MstatusFields(xlen), p)
    ensures Offset(MstatusFields(xlen), |MstatusFields(xlen)|) == xlen
  {
    MstatusMatches(xlen);
    MstatusConsecutive(xlen);
    MstatusDistinct(xlen);
    PlacedByName(MstatusFields(xlen), MstatusPlaces(xlen), xlen);
  }

  lemma MieMatches(xlen: nat)
    requires IsXlen(xlen)
    ensures Matches(MieFields(xlen), MiePlaces(xlen))
  {
  }

  lemma MieConsecutive(xlen: nat)
    requires IsXlen(xlen)
    ensures Consecutive(MiePlaces(xlen), 0, xlen)
  {
  }

  lemma MieDistinct(xlen: nat)
    requires IsXlen(xlen)
    ensures DistinctNames(MiePlaces(xlen))
  {
  }

  /** The same holds of MIE. */
  lemma MieLayout(xlen: nat)
    requires IsXlen(xlen)
    ensures forall p :: p in MiePlaces(xlen) ==> Placed(MieFields(xlen), p)
    ensures Offset(MieFields(xlen), |MieFields(xlen)|) == xlen
  {
    MieMatches(xlen);
    MieConsecutive(xlen);
    MieDistinct(xlen);
    PlacedByName(MieFields(xlen), MiePlaces(xlen), xlen);
  }
}
