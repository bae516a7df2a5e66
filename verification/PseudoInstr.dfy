/** Lowering pseudo-instructions to regular ones (scripts/lib.py, `convert_pseudo_instr`). */
module PseudoInstr {
  import opened Hex
  import opened Bits
  import opened Words

  datatype Name =
    | NOP | MV | NOT | NEG | NEGW | SEXT_W | SEQZ | SNEZ | SLTZ | SGTZ
    | BEQZ | BNEZ | BGEZ | BLTZ | BLEZ | BGTZ | BGT | BLE | BGTU | BLEU
    | CSRR | CSRW | CSRS | CSRC | CSRWI | CSRSI | CSRCI | J | JR | RET
    | JAL | JALR | C_JR
    | ADDI | XORI | SUB | SUBW | ADDIW | SLTIU | SLTU | SLT
    | BEQ | BNE | BGE | BLT | BLTU | BGEU
    | CSRRW | CSRRS | CSRRC | CSRRWI | CSRRSI | CSRRCI

  /** A parsed operand; `Mem` is the `imm(rs1)` form. */
  datatype Operand = Reg(n: nat) | Imm(i: int) | Csr(c: nat) | Mem(off: int, base: nat)

  type Operands = seq<Operand>

  const ZERO: Operand := Reg(0)
  const RA: Operand := Reg(1)

  /** The regular form, or `None` where an operand the code indexes is missing. */
  function Convert(name: Name, o: Operands, compressed: bool): Option<(Name, Operands)> {
    match name
    case NOP => Some((ADDI, [ZERO, ZERO, Imm(0)]))
    case MV => Some((ADDI, o + [Imm(0)]))
    case NOT => Some((XORI, o + [Imm(-1)]))
    case NEG => if |o| < 2 then None else Some((SUB, [o[0], ZERO, o[1]]))
    case NEGW => if |o| < 2 then None else Some((SUBW, [o[0], ZERO, o[1]]))
    case SEXT_W => Some((ADDIW, o + [Imm(0)]))
    case SEQZ => Some((SLTIU, o + [Imm(1)]))
    case SNEZ => if |o| < 2 then None else Some((SLTU, [o[0], ZERO, o[1]]))
    case SLTZ => Some((SLT, o + [ZERO]))
    case SGTZ => if |o| < 2 then None else Some((SLT, [o[0], ZERO, o[1]]))
    case BEQZ => if |o| < 2 then None else Some((BEQ, [o[0], ZERO, o[1]]))
    case BNEZ => if |o| < 2 then None else Some((BNE, [o[0], ZERO, o[1]]))
    case BGEZ => if |o| < 2 then None else Some((BGE, [o[0], ZERO, o[1]]))
    case BLTZ => if |o| < 2 then None else Some((BLT, [o[0], ZERO, o[1]]))
    case BLEZ => Some((BGE, [ZERO] + o))
    case BGTZ => Some((BLT, [ZERO] + o))
    case BGT => if |o| < 3 then None else Some((BLT, [o[1], o[0], o[2]]))
    case BLE => if |o| < 3 then None else Some((BGE, [o[1], o[0], o[2]]))
    case BGTU => if |o| < 3 then None else Some((BLTU, [o[1], o[0], o[2]]))
    case BLEU => if |o| < 3 then None else Some((BGEU, [o[1], o[0], o[2]]))
    case CSRR => Some((CSRRW, o + [ZERO]))
    case CSRW => Some((CSRRW, [ZERO] + o))
    case CSRS => Some((CSRRS, [ZERO] + o))
    case CSRC => Some((CSRRC, [ZERO] + o))
    case CSRWI => Some((CSRRWI, [ZERO] + o))
    case CSRSI => Some((CSRRSI, [ZERO] + o))
    case CSRCI => Some((CSRRCI, [ZERO] + o))
    case JR => Some((JALR, [ZERO] + o + [Imm(0)]))
    case J => Some((JAL, [ZERO] + o))
    case JAL => Some((JAL, if |o| < 2 then [RA] + o else o))
    case JALR =>
      if |o| == 2 && o[1].Mem? then Some((JALR, [o[0], Reg(o[1].base), Imm(o[1].off)]))
      else Some((JALR, if |o| < 2 then [RA] + o + [Imm(0)] else o))
    case RET => Some(if compressed then (C_JR, [RA]) else (JALR, [ZERO, RA, Imm(0)]))
    case _ => Some((name, o))
  }

  // ---------------------------------------------------------------- regular instructions

  datatype State = State(pc: int, regs: seq<int>, csrs: map<nat, int>)

  ghost predicate Valid(xlen: nat, st: State) {
    && IsXlen(xlen)
    && |st.regs| == 32 && st.regs[0] == 0
    && (forall i :: 0 <= i < 32 ==> 0 <= st.regs[i] < Modulus(xlen))
    && forall c :: c in st.csrs ==> 0 <= st.csrs[c] < Modulus(xlen)
  }

  /** The low 32 bits, sign-extended. */
  function Sext32(xlen: nat, v: int): int {
    var low := v % 0x1_0000_0000;
    Word(xlen, if low < 0x8000_0000 then low else low - 0x1_0000_0000)
  }

  /** Bitwise operations on `n`-bit words. */
  function Bitwise(n: nat, f: (bool, bool) -> bool, a: int, b: int): int {
    if n == 0 then 0
    else 2 * Bitwise(n - 1, f, a / 2, b / 2) + (if f(a % 2 == 1, b % 2 == 1) then 1 else 0)
  }

  const XOR: (bool, bool) -> bool := (x, y) => x != y
  const OR: (bool, bool) -> bool := (x, y) => x || y
  const CLEAR: (bool, bool) -> bool := (x, y) => x && !y

  function Put(st: State, rd: nat, v: int): State
    requires |st.regs| == 32
  {
    if 0 < rd < 32 then st.(pc := st.pc + 4, regs := st.regs[rd := v]) else st.(pc := st.pc + 4)
  }

  function Branch(st: State, taken: bool, off: int): State {
    st.(pc := if taken then st.pc + off else st.pc + 4)
  }

  /** Jump to an address with its low bit cleared, leaving the return address in `rd`. */
  function Jump(st: State, rd: nat, target: int): State
    requires |st.regs| == 32
  {
    Put(st, rd, st.pc + 4).(pc := target - target % 2)
  }

  function Get(st: State, r: nat): int
    requires |st.regs| == 32
  {
    if r < 32 then st.regs[r] else 0
  }

  /** A CSR instruction: `rd` gets the old value, the CSR the new one, where it is written. */
  function Access(st: State, rd: nat, c: nat, now: int, writes: bool): State
    requires |st.regs| == 32 && c in st.csrs
  {
    Put(if writes then st.(csrs := st.csrs[c := now]) else st, rd, st.csrs[c])
  }

  /** Three-operand instructions with a destination, two sources or a source and an immediate. */
  function Alu(xlen: nat, name: Name, x: int, y: int): Option<int> {
    match name
    case ADDI => Some(Word(xlen, x + y))
    case XORI => Some(Bitwise(xlen, XOR, x, Word(xlen, y)))
    case SUB => Some(Word(xlen, x - y))
    case SUBW => Some(Sext32(xlen, x - y))
    case ADDIW => Some(Sext32(xlen, x + y))
    case SLTIU => Some(if x < Word(xlen, y) then 1 else 0)
    case SLTU => Some(if x < y then 1 else 0)
    case SLT => Some(if Signed(xlen, x) < Signed(xlen, y) then 1 else 0)
    case _ => None
  }

  function Compare(xlen: nat, name: Name, x: int, y: int): Option<bool> {
    match name
    case BEQ => Some(x == y)
    case BNE => Some(x != y)
    case BGE => Some(Signed(xlen, x) >= Signed(xlen, y))
    case BLT => Some(Signed(xlen, x) < Signed(xlen, y))
    case BLTU => Some(x < y)
    case BGEU => Some(x >= y)
    case _ => None
  }

  function CsrFunct(xlen: nat, name: Name, prev: int, v: int): Option<int> {
    match name
    case CSRRW | CSRRWI => Some(v)
    case CSRRS | CSRRSI => Some(Bitwise(xlen, OR, prev, v))
    case CSRRC | CSRRCI => Some(Bitwise(xlen, CLEAR, prev, v))
    case _ => None
  }

  function ExecRrr(xlen: nat, name: Name, rd: nat, r1: nat, r2: nat, st: State): Option<State>
    requires |st.regs| == 32
  {
    if name in {SUB, SUBW, SLTU, SLT} then Some(Put(st, rd, Alu(xlen, name, Get(st, r1), Get(st, r2)).value)) else None
  }

  function ExecRri(xlen: nat, name: Name, r: nat, r1: nat, i: int, st: State): Option<State>
    requires |st.regs| == 32
  {
    if name in {ADDI, XORI, ADDIW, SLTIU} then Some(Put(st, r, Alu(xlen, name, Get(st, r1), i).value))
    else if name in {BEQ, BNE, BGE, BLT, BLTU, BGEU} then
      Some(Branch(st, Compare(xlen, name, Get(st, r), Get(st, r1)).value, i))
    else if name == JALR then Some(Jump(st, r, Word(xlen, Get(st, r1) + i)))
    else None
  }

  function ExecCsr(xlen: nat, name: Name, rd: nat, c: nat, v: int, named: bool, st: State): Option<State>
    requires |st.regs| == 32
  {
    if c !in st.csrs || CsrFunct(xlen, name, 0, 0).None? then None
    else Some(Access(st, rd, c, CsrFunct(xlen, name, st.csrs[c], v).value, name in {CSRRW, CSRRWI} || named))
  }

  /** A regular instruction on its operands; `None` when the operands are not of its form. */
  function Exec(xlen: nat, name: Name, o: Operands, st: State): Option<State>
    requires |st.regs| == 32
  {
    if |o| == 3 then
      match (o[0], o[1], o[2])
      case (Reg(a), Reg(b), Reg(c)) => ExecRrr(xlen, name, a, b, c, st)
      case (Reg(a), Reg(b), Imm(i)) => ExecRri(xlen, name, a, b, i, st)
      case (Reg(a), Csr(c), Reg(r)) =>
        if name in {CSRRW, CSRRS, CSRRC} then ExecCsr(xlen, name, a, c, Get(st, r), r != 0, st) else None
      case (Reg(a), Csr(c), Imm(i)) =>
        if name in {CSRRWI, CSRRSI, CSRRCI} then ExecCsr(xlen, name, a, c, i, i != 0, st) else None
      case _ => None
    else if |o| == 2 && o[0].Reg? && o[1].Imm? && name == JAL then Some(Jump(st, o[0].n, st.pc + o[1].i))
    else if |o| == 1 && o[0].Reg? && name == C_JR then Some(st.(pc := Get(st, o[0].n) - Get(st, o[0].n) % 2))
    else None
  }

  // ---------------------------------------------------------------- what the pseudo-instructions mean

  /** Two registers in, as tables 25.2 and 25.3 of the RISC-V Unprivileged ISA 20191213 describe them. */
  function UnaryMeaning(xlen: nat, name: Name, x: int): Option<int> {
    match name
    case MV => Some(x)
    case NOT => Some(Modulus(xlen) - 1 - x)
    case NEG => Some(if x == 0 then 0 else Modulus(xlen) - x)
    case NEGW => Some(Sext32(xlen, -x))
    case SEXT_W => Some(Sext32(xlen, x))
    case SEQZ => Some(if x == 0 then 1 else 0)
    case SNEZ => Some(if x != 0 then 1 else 0)
    case SLTZ => Some(if Signed(xlen, x) < 0 then 1 else 0)
    case SGTZ => Some(if Signed(xlen, x) > 0 then 1 else 0)
    case _ => None
  }

  function ZeroBranchMeaning(xlen: nat, name: Name, x: int): Option<bool> {
    match name
    case BEQZ => Some(x == 0)
    case BNEZ => Some(x != 0)
    case BGEZ => Some(Signed(xlen, x) >= 0)
    case BLTZ => Some(Signed(xlen, x) < 0)
    case BLEZ => Some(Signed(xlen, x) <= 0)
    case BGTZ => Some(Signed(xlen, x) > 0)
    case _ => None
  }

  function BranchMeaning(xlen: nat, name: Name, x: int, y: int): Option<bool> {
    match name
    case BGT => Some(Signed(xlen, x) > Signed(xlen, y))
    case BLE => Some(Signed(xlen, x) <= Signed(xlen, y))
    case BGTU => Some(x > y)
    case BLEU => Some(x <= y)
    case _ => None
  }

  predicate IsUnary(name: Name) {
    name in {MV, NOT, NEG, NEGW, SEXT_W, SEQZ, SNEZ, SLTZ, SGTZ}
  }

  predicate IsZeroBranch(name: Name) {
    name in {BEQZ, BNEZ, BGEZ, BLTZ, BLEZ, BGTZ}
  }

  predicate IsSwapBranch(name: Name) {
    name in {BGT, BLE, BGTU, BLEU}
  }

  /** The even address at or just below. */
  function Even(a: int): (r: int)
    ensures r % 2 == 0 && r <= a <= r + 1
  {
    if a % 2 == 0 then a else a - 1
  }

  /** Bitwise operations work bit by bit. */
  lemma {:induction false} BitwiseBit(n: nat, f: (bool, bool) -> bool, a: nat, b: nat, i: nat)
    requires i < n
    ensures 0 <= Bitwise(n, f, a, b)
    ensures NatBit(Bitwise(n, f, a, b), i) == f(NatBit(a, i), NatBit(b, i))
  {
    BitwiseFits(n, f, a, b);
    BitwiseHalves(n, f, a, b);
    if i == 0 {
      LowBit(Bitwise(n, f, a, b));
      LowBit(a);
      LowBit(b);
    } else {
      BitwiseBit(n - 1, f, a / 2, b / 2, i - 1);
      BitOfHalf(a, i);
      BitOfHalf(b, i);
      BitOfHalf(Bitwise(n, f, a, b), i);
    }
  }

  lemma BitwiseHalves(n: nat, f: (bool, bool) -> bool, a: nat, b: nat)
    requires n > 0
    ensures Bitwise(n, f, a, b) / 2 == Bitwise(n - 1, f, a / 2, b / 2)
    ensures (Bitwise(n, f, a, b) % 2 == 1) == f(a % 2 == 1, b % 2 == 1)
  {
  }

  lemma LowBit(v: nat)
    ensures NatBit(v, 0) == (v % 2 == 1)
  {
  }

  lemma BitOfHalf(v: nat, i: nat)
    requires i > 0
    ensures NatBit(v, i) == NatBit(v / 2, i - 1)
  {
    HalfThenShift(v, i - 1);
  }

  lemma {:induction false} BitwiseFits(n: nat, f: (bool, bool) -> bool, a: nat, b: nat)
    ensures 0 <= Bitwise(n, f, a, b) < Pow2(n)
  {
    if n == 0 {
    } else {
      BitwiseFits(n - 1, f, a / 2, b / 2);
    }
  }

  /** A CSR instruction that sets leaves a bit set where either had it, one that clears where only the CSR had it. */
  lemma CsrBits(xlen: nat, name: Name, prev: nat, v: nat, i: nat)
    requires i < xlen && name in {CSRS, CSRSI, CSRC, CSRCI}
    ensures CsrMeaning(xlen, name, prev, v).Some? && 0 <= CsrMeaning(xlen, name, prev, v).value
    ensures NatBit(CsrMeaning(xlen, name, prev, v).value, i) <==>
            if name in {CSRS, CSRSI} then NatBit(prev, i) || NatBit(v, i) else NatBit(prev, i) && !NatBit(v, i)
  {
    BitwiseBit(xlen, if name in {CSRS, CSRSI} then OR else CLEAR, prev, v, i);
  }

  /** The word forms compute the result modulo 2^32, read as signed. */
  lemma SextMeaning(xlen: nat, v: int)
    requires IsXlen(xlen)
    ensures 0 <= Sext32(xlen, v) < Modulus(xlen)
    ensures Wraps(v, Signed(xlen, Sext32(xlen, v)), -0x8000_0000, 0x1_0000_0000)
  {
    var m := 0x1_0000_0000;
    DivisibleBy(v - v % m, m, v / m);
    DivisibleBy(v - v % m + m, m, v / m + 1);
  }

  lemma {:induction false} XorOnes(n: nat, x: int)
    requires 0 <= x < Pow2(n)
    ensures Bitwise(n, XOR, x, Pow2(n) - 1) == Pow2(n) - 1 - x
  {
    if n == 0 {
    } else {
      var half := Pow2(n - 1);
      XorOnes(n - 1, x / 2);
      assert (Pow2(n) - 1) / 2 == half - 1 && (Pow2(n) - 1) % 2 == 1;
    }
  }

  /** A nop moves on and changes nothing else. */
  lemma NopPreserved(xlen: nat, compressed: bool, st: State)
    requires Valid(xlen, st)
    ensures var c := Convert(NOP, [], compressed).value; Exec(xlen, c.0, c.1, st) == Some(st.(pc := st.pc + 4))
  {
    assert Exec(xlen, ADDI, [ZERO, ZERO, Imm(0)], st) == ExecRri(xlen, ADDI, 0, 0, 0, st);
  }

  /** Register pseudo-instructions compute what they are for. */
  lemma UnaryPreserved(xlen: nat, name: Name, rd: nat, rs: nat, compressed: bool, st: State)
    requires Valid(xlen, st) && rs < 32 && IsUnary(name)
    ensures var c := Convert(name, [Reg(rd), Reg(rs)], compressed);
            && c.Some?
            && Exec(xlen, c.value.0, c.value.1, st) ==
               var v := UnaryMeaning(xlen, name, st.regs[rs]).value;
               Some(st.(pc := st.pc + 4, regs := if 0 < rd < 32 then st.regs[rd := v] else st.regs))
  {
    if name in {MV, NOT, SEXT_W, SEQZ} {
      UnaryByImmediate(xlen, name, rd, rs, compressed, st);
    } else {
      UnaryByZero(xlen, name, rd, rs, compressed, st);
    }
  }

  lemma UnaryByImmediate(xlen: nat, name: Name, rd: nat, rs: nat, compressed: bool, st: State)
    requires Valid(xlen, st) && rs < 32 && name in {MV, NOT, SEXT_W, SEQZ}
    ensures var c := Convert(name, [Reg(rd), Reg(rs)], compressed);
            && c.Some?
            && Exec(xlen, c.value.0, c.value.1, st) ==
               Some(Put(st, rd, UnaryMeaning(xlen, name, st.regs[rs]).value))
  {
    var i := if name == NOT then -1 else if name == SEQZ then 1 else 0;
    var (lowered, o) := Convert(name, [Reg(rd), Reg(rs)], compressed).value;
    assert o == [Reg(rd), Reg(rs), Imm(i)];
    ImmediateOperand(xlen, name, lowered, i, st.regs[rs]);
    assert Exec(xlen, lowered, o, st) == ExecRri(xlen, lowered, rd, rs, i, st);
  }

  lemma ImmediateOperand(xlen: nat, name: Name, lowered: Name, i: int, x: int)
    requires name in {MV, NOT, SEXT_W, SEQZ} && IsXlen(xlen) && 0 <= x < Modulus(xlen)
    requires lowered == Convert(name, [ZERO, ZERO], false).value.0
    requires i == if name == NOT then -1 else if name == SEQZ then 1 else 0
    ensures Alu(xlen, lowered, x, i) == UnaryMeaning(xlen, name, x)
  {
    if name == NOT {
      InvertMeaning(xlen, x);
    } else {
      WordOfWord(xlen, x);
    }
  }

  lemma InvertMeaning(xlen: nat, x: int)
    requires IsXlen(xlen) && 0 <= x < Modulus(xlen)
    ensures Bitwise(xlen, XOR, x, Word(xlen, -1)) == Modulus(xlen) - 1 - x
  {
    ModulusIsPow(xlen);
    assert Word(xlen, -1) == Modulus(xlen) - 1;
    XorOnes(xlen, x);
  }

  lemma UnaryByZero(xlen: nat, name: Name, rd: nat, rs: nat, compressed: bool, st: State)
    requires Valid(xlen, st) && rs < 32 && name in {NEG, NEGW, SNEZ, SLTZ, SGTZ}
    ensures var c := Convert(name, [Reg(rd), Reg(rs)], compressed);
            && c.Some?
            && Exec(xlen, c.value.0, c.value.1, st) ==
               Some(Put(st, rd, UnaryMeaning(xlen, name, st.regs[rs]).value))
  {
    var (lowered, o) := Convert(name, [Reg(rd), Reg(rs)], compressed).value;
    ZeroOperand(xlen, name, lowered, st.regs[rs]);
    if name == SLTZ {
      assert o == [Reg(rd), Reg(rs), ZERO];
      assert Exec(xlen, lowered, o, st) == ExecRrr(xlen, lowered, rd, rs, 0, st);
    } else {
      assert o == [Reg(rd), ZERO, Reg(rs)];
      assert Exec(xlen, lowered, o, st) == ExecRrr(xlen, lowered, rd, 0, rs, st);
    }
  }

  lemma ZeroOperand(xlen: nat, name: Name, lowered: Name, x: int)
    requires name in {NEG, NEGW, SNEZ, SLTZ, SGTZ} && IsXlen(xlen) && 0 <= x < Modulus(xlen)
    requires lowered == Convert(name, [ZERO, ZERO], false).value.0
    ensures UnaryMeaning(xlen, name, x) ==
            if name == SLTZ then Alu(xlen, lowered, x, 0) else Alu(xlen, lowered, 0, x)
  {
    assert Word(xlen, 0 - x) == if x == 0 then 0 else Modulus(xlen) - x;
  }

  /** Branches against zero are taken exactly when they should be. */
  lemma ZeroBranchesPreserved(xlen: nat, name: Name, r: nat, off: int, compressed: bool, st: State)
    requires Valid(xlen, st) && r < 32 && IsZeroBranch(name)
    ensures var c := Convert(name, [Reg(r), Imm(off)], compressed);
            && c.Some?
            && Exec(xlen, c.value.0, c.value.1, st) ==
               Some(st.(pc := st.pc + if ZeroBranchMeaning(xlen, name, st.regs[r]).value then off else 4))
  {
    var (lowered, o) := Convert(name, [Reg(r), Imm(off)], compressed).value;
    ZeroCompare(xlen, name, lowered, st.regs[r]);
    if name in {BLEZ, BGTZ} {
      assert o == [ZERO, Reg(r), Imm(off)];
      assert Exec(xlen, lowered, o, st) == ExecRri(xlen, lowered, 0, r, off, st);
    } else {
      assert o == [Reg(r), ZERO, Imm(off)];
      assert Exec(xlen, lowered, o, st) == ExecRri(xlen, lowered, r, 0, off, st);
    }
  }

  lemma ZeroCompare(xlen: nat, name: Name, lowered: Name, x: int)
    requires IsZeroBranch(name) && IsXlen(xlen) && 0 <= x < Modulus(xlen)
    requires lowered == Convert(name, [Reg(0), Imm(0)], false).value.0
    ensures ZeroBranchMeaning(xlen, name, x) ==
            if name in {BLEZ, BGTZ} then Compare(xlen, lowered, 0, x) else Compare(xlen, lowered, x, 0)
  {
  }

  lemma SwappedCompare(xlen: nat, name: Name, lowered: Name, x: int, y: int)
    requires IsSwapBranch(name) && lowered == Convert(name, [ZERO, ZERO, ZERO], false).value.0
    ensures BranchMeaning(xlen, name, x, y) == Compare(xlen, lowered, y, x)
  {
  }

  /** So are branches whose operands are swapped. */
  lemma SwappedBranchesPreserved(xlen: nat, name: Name, r: nat, s: nat, off: int, compressed: bool, st: State)
    requires Valid(xlen, st) && r < 32 && s < 32 && IsSwapBranch(name)
    ensures var c := Convert(name, [Reg(r), Reg(s), Imm(off)], compressed);
            && c.Some?
            && Exec(xlen, c.value.0, c.value.1, st) ==
               Some(st.(pc := st.pc + if BranchMeaning(xlen, name, st.regs[r], st.regs[s]).value then off else 4))
  {
    var (lowered, o) := Convert(name, [Reg(r), Reg(s), Imm(off)], compressed).value;
    SwappedCompare(xlen, name, lowered, st.regs[r], st.regs[s]);
    assert o == [Reg(s), Reg(r), Imm(off)];
    assert Exec(xlen, lowered, o, st) == ExecRri(xlen, lowered, s, r, off, st);
  }

  /** Direct jumps go where they should, and link in ra only where no register is named. */
  lemma DirectJumpsPreserved(xlen: nat, rd: nat, off: int, compressed: bool, st: State)
    requires Valid(xlen, st)
    ensures var c := Convert(J, [Imm(off)], compressed).value;
            Exec(xlen, c.0, c.1, st) == Some(st.(pc := Even(st.pc + off)))
    ensures var c := Convert(JAL, [Imm(off)], compressed).value;
            Exec(xlen, c.0, c.1, st) == Some(st.(pc := Even(st.pc + off), regs := st.regs[1 := st.pc + 4]))
    ensures var c := Convert(JAL, [Reg(rd), Imm(off)], compressed).value;
            Exec(xlen, c.0, c.1, st) ==
            Some(st.(pc := Even(st.pc + off), regs := if 0 < rd < 32 then st.regs[rd := st.pc + 4] else st.regs))
  {
    assert [ZERO] + [Imm(off)] == [ZERO, Imm(off)] && [RA] + [Imm(off)] == [RA, Imm(off)];
  }

  /** Indirect jumps likewise. */
  lemma RegisterJumpsPreserved(xlen: nat, rs: nat, compressed: bool, st: State)
    requires Valid(xlen, st) && rs < 32
    ensures var c := Convert(JR, [Reg(rs)], compressed).value;
            Exec(xlen, c.0, c.1, st) == Some(st.(pc := Even(st.regs[rs])))
    ensures var c := Convert(JALR, [Reg(rs)], compressed).value;
            Exec(xlen, c.0, c.1, st) == Some(st.(pc := Even(st.regs[rs]), regs := st.regs[1 := st.pc + 4]))
  {
    assert Convert(JR, [Reg(rs)], compressed).value.1 == [ZERO, Reg(rs), Imm(0)];
    assert Convert(JALR, [Reg(rs)], compressed).value.1 == [RA, Reg(rs), Imm(0)];
    WordOfWord(xlen, st.regs[rs]);
    assert Exec(xlen, JALR, [ZERO, Reg(rs), Imm(0)], st) == ExecRri(xlen, JALR, 0, rs, 0, st);
    assert Exec(xlen, JALR, [RA, Reg(rs), Imm(0)], st) == ExecRri(xlen, JALR, 1, rs, 0, st);
  }

  /** The `rd, imm(rs1)` form keeps its offset: `rs1` and `imm` change places. */
  lemma OffsetJumpPreserved(xlen: nat, rd: nat, rs: nat, off: int, compressed: bool, st: State)
    requires Valid(xlen, st) && rs < 32
    ensures var c := Convert(JALR, [Reg(rd), Mem(off, rs)], compressed).value;
            Exec(xlen, c.0, c.1, st) ==
            Some(st.(pc := Even(Word(xlen, st.regs[rs] + off)),
                     regs := if 0 < rd < 32 then st.regs[rd := st.pc + 4] else st.regs))
  {
    assert Exec(xlen, JALR, [Reg(rd), Reg(rs), Imm(off)], st) == ExecRri(xlen, JALR, rd, rs, off, st);
  }

  /** A return goes to ra and links nowhere, whether or not the binary is compressed. */
  lemma ReturnPreserved(xlen: nat, compressed: bool, st: State)
    requires Valid(xlen, st)
    ensures compressed ==> Convert(RET, [], compressed) == Some((C_JR, [Reg(1)]))
    ensures !compressed ==> Convert(RET, [], compressed) == Some((JALR, [Reg(0), Reg(1), Imm(0)]))
    ensures var c := Convert(RET, [], compressed).value;
            Exec(xlen, c.0, c.1, st) == Some(st.(pc := Even(st.regs[1])))
  {
    WordOfWord(xlen, st.regs[1]);
    assert Exec(xlen, JALR, [ZERO, RA, Imm(0)], st) == ExecRri(xlen, JALR, 0, 1, 0, st);
  }

  lemma WordOfWord(xlen: nat, w: int)
    requires 0 <= w < Modulus(xlen)
    ensures Word(xlen, w + 0) == w
  {
  }

  /** The value a CSR write pseudo-instruction leaves in the CSR. */
  function CsrMeaning(xlen: nat, name: Name, prev: int, v: int): Option<int> {
    match name
    case CSRW | CSRWI => Some(v)
    case CSRS | CSRSI => Some(Bitwise(xlen, OR, prev, v))
    case CSRC | CSRCI => Some(Bitwise(xlen, CLEAR, prev, v))
    case _ => None
  }

  /** ORing with, or clearing, no bits changes nothing. */
  lemma {:induction false} NoBits(n: nat, x: int)
    requires 0 <= x < Pow2(n)
    ensures Bitwise(n, OR, x, 0) == x && Bitwise(n, CLEAR, x, 0) == x
  {
    if n == 0 {
    } else {
      NoBits(n - 1, x / 2);
    }
  }

  /** Skipping the write of a set or clear of no bits, as the hardware does, cannot be seen. */
  lemma CsrStep(xlen: nat, name: Name, c: nat, v: int, named: bool, st: State)
    requires Valid(xlen, st) && c in st.csrs && CsrFunct(xlen, name, 0, 0).Some?
    requires named || v == 0
    ensures ExecCsr(xlen, name, 0, c, v, named, st) ==
            Some(st.(pc := st.pc + 4, csrs := st.csrs[c := CsrFunct(xlen, name, st.csrs[c], v).value]))
  {
    ModulusIsPow(xlen);
    NoBits(xlen, st.csrs[c]);
    assert st.csrs[c := st.csrs[c]] == st.csrs;
  }

  /** CSR writes from a register change that CSR as they should and nothing else, `x0` included. */
  lemma CsrWritesPreserved(xlen: nat, name: Name, c: nat, rs: nat, compressed: bool, st: State)
    requires Valid(xlen, st) && c in st.csrs && rs < 32 && name in {CSRW, CSRS, CSRC}
    ensures var l := Convert(name, [Csr(c), Reg(rs)], compressed).value;
            Exec(xlen, l.0, l.1, st) ==
            Some(st.(pc := st.pc + 4, csrs := st.csrs[c := CsrMeaning(xlen, name, st.csrs[c], st.regs[rs]).value]))
  {
    var (lowered, o) := Convert(name, [Csr(c), Reg(rs)], compressed).value;
    assert o == [ZERO, Csr(c), Reg(rs)];
    CsrStep(xlen, lowered, c, st.regs[rs], rs != 0, st);
  }

  /** So do CSR writes of an immediate. */
  lemma CsrImmediatesPreserved(xlen: nat, name: Name, c: nat, i: nat, compressed: bool, st: State)
    requires Valid(xlen, st) && c in st.csrs && name in {CSRWI, CSRSI, CSRCI}
    ensures var l := Convert(name, [Csr(c), Imm(i)], compressed).value;
            Exec(xlen, l.0, l.1, st) ==
            Some(st.(pc := st.pc + 4, csrs := st.csrs[c := CsrMeaning(xlen, name, st.csrs[c], i).value]))
  {
    var (lowered, o) := Convert(name, [Csr(c), Imm(i)], compressed).value;
    assert o == [ZERO, Csr(c), Imm(i)];
    CsrStep(xlen, lowered, c, i, i != 0, st);
  }

  /** Reading a CSR is lowered to writing zero to it: the right thing exactly when it holds zero. */
  lemma CsrReadPreservedIff(xlen: nat, rd: nat, c: nat, compressed: bool, st: State)
    requires Valid(xlen, st) && c in st.csrs
    ensures var (n, o) := Convert(CSRR, [Reg(rd), Csr(c)], compressed).value;
            Exec(xlen, n, o, st) ==
            Some(st.(pc := st.pc + 4, regs := if 0 < rd < 32 then st.regs[rd := st.csrs[c]] else st.regs))
            <==> st.csrs[c] == 0
  {
    var o := [Reg(rd), Csr(c)] + [ZERO];
    assert o == [Reg(rd), Csr(c), ZERO];
    var after := st.csrs[c := 0];
    assert Exec(xlen, CSRRW, o, st).value.csrs == after;
    assert Put(st, rd, st.csrs[c]).csrs == st.csrs;
    if st.csrs[c] == 0 {
      assert after == st.csrs;
    } else {
      assert after[c] != st.csrs[c];
    }
  }

  /** What `Convert` leaves alone. */
  predicate IsRegular(name: Name, o: Operands) {
    || name in {C_JR, ADDI, XORI, SUB, SUBW, ADDIW, SLTIU, SLTU, SLT, BEQ, BNE, BGE, BLT, BLTU, BGEU,
                CSRRW, CSRRS, CSRRC, CSRRWI, CSRRSI, CSRRCI}
    || (name == JAL && |o| >= 2)
    || (name == JALR && |o| >= 2 && !(|o| == 2 && o[1].Mem?))
  }

  lemma RegularKept(name: Name, o: Operands, compressed: bool)
    requires IsRegular(name, o)
    ensures Convert(name, o, compressed) == Some((name, o))
  {
  }

  lemma ConvertGivesRegular(name: Name, o: Operands, compressed: bool)
    requires Convert(name, o, compressed).Some? && (name in {J, JAL, JALR} ==> o != [])
    ensures var c := Convert(name, o, compressed).value; IsRegular(c.0, c.1)
  {
    var (n, p) := Convert(name, o, compressed).value;
    if name == JR {
      assert p == [ZERO] + o + [Imm(0)] && (|p| == 2 ==> p[1] == Imm(0));
    } else if name == JALR && |o| < 2 {
      assert p == [RA] + o + [Imm(0)] && |p| == 3;
    }
  }

  /** Converting what has been converted changes nothing. */
  lemma ConvertTwice(name: Name, o: Operands, compressed: bool)
    requires Convert(name, o, compressed).Some? && (name in {J, JAL, JALR} ==> o != [])
    ensures var c := Convert(name, o, compressed).value; Convert(c.0, c.1, compressed) == Some(c)
  {
    ConvertGivesRegular(name, o, compressed);
    var (n, p) := Convert(name, o, compressed).value;
    RegularKept(n, p, compressed);
  }
}
