/** What the instructions mean: their encoding, the bits and numbers they compute, and all they leave alone. */
module MipsInstructions {
  import opened PageWords
  import T = TlbModel
  import opened Mips
  import R = MipsRestart
  import MM = MipsMemory

  // --- encoding ---

  /** A register instruction: opcode, rs, rt, rd, shift amount, function */
  function RType(op: nat, rs: Reg, rt: Reg, rd: Reg, shift: nat, fn: nat): Word
    requires op < 64 && shift < 32 && fn < 64
  {
    op * 0x400_0000 + rs * 0x20_0000 + rt * 0x1_0000 + rd * 0x800 + shift * 0x40 + fn
  }

  /** An immediate instruction: opcode, rs, rt, immediate */
  function IType(op: nat, rs: Reg, rt: Reg, imm: nat): Word
    requires op < 64 && imm < 0x1_0000
  {
    op * 0x400_0000 + rs * 0x20_0000 + rt * 0x1_0000 + imm
  }

  function AluFn(op: AluOp): (fn: nat)
    ensures fn < 64
  {
    match op
    case Sllv => 0x04
    case Srlv => 0x06
    case Srav => 0x07
    case Addu => 0x21
    case Subu => 0x23
    case And => 0x24
    case Or => 0x25
    case Xor => 0x26
    case Nor => 0x27
    case Slt => 0x2a
    case Sltu => 0x2b
  }

  function ShiftFn(op: ShiftOp): (fn: nat)
    ensures fn < 64
  {
    match op
    case Sll => 0x00
    case Srl => 0x02
    case Sra => 0x03
  }

  function ImmCode(op: ImmOp): (c: nat)
    ensures c < 64
  {
    match op
    case Addiu => 0x09
    case Slti => 0x0a
    case Sltiu => 0x0b
    case Andi => 0x0c
    case Ori => 0x0d
    case Xori => 0x0e
    case Lui => 0x0f
  }

  function BranchCode(cond: Cond): (c: nat)
    ensures c < 64
  {
    match cond
    case Ltz => 0x01
    case Gez => 0x01
    case Eq => 0x04
    case Ne => 0x05
    case Lez => 0x06
    case Gtz => 0x07
  }

  function LoadCode(width: Width): (c: nat)
    ensures c < 64
  {
    match width
    case SByte => 0x20
    case Full => 0x23
    case UByte => 0x24
    case UHalf => 0x25
  }

  /** An instruction an assembler can write: bltz and bgez have their own rt, and some words have no instruction. */
  predicate Assembles(i: Instr) {
    && InRange(i) && !i.Reserved? && !i.Cache?
    && (i.Branch? && i.cond == Ltz ==> i.rt == 0) && (i.Branch? && i.cond == Gez ==> i.rt == 1)
  }

  /** The word of an instruction, by the opcode tables of the MIPS32 architecture, volume II */
  function Encode(i: Instr): Word
    requires Assembles(i)
  {
    match i
    case Alu(op, rd, rs, rt) => RType(0, rs, rt, rd, 0, AluFn(op))
    case Shift(op, rd, rt, n) => RType(0, 0, rt, rd, n, ShiftFn(op))
    case Imm(op, rt, rs, imm) => IType(ImmCode(op), rs, rt, imm)
    case Branch(cond, rs, rt, imm) => IType(BranchCode(cond), rs, rt, imm)
    case Jr(rs) => RType(0, rs, 0, 0, 0, 0x08)
    case Jalr(rd, rs) => RType(0, rs, 0, rd, 0, 0x09)
    case J(target) => 0x02 * 0x400_0000 + target
    case Jal(target) => 0x03 * 0x400_0000 + target
    case Mfhi(rd) => RType(0, 0, 0, rd, 0, 0x10)
    case Mthi(rs) => RType(0, rs, 0, 0, 0, 0x11)
    case Mflo(rd) => RType(0, 0, 0, rd, 0, 0x12)
    case Mtlo(rs) => RType(0, rs, 0, 0, 0, 0x13)
    case Mult(rs, rt) => RType(0, rs, rt, 0, 0, 0x18)
    case Load(width, rt, rs, imm) => IType(LoadCode(width), rs, rt, imm)
    case Store(width, rt, rs, imm) => IType(if width == Full then 0x2b else 0x28, rs, rt, imm)
    case Mfc0(rt, rd) => RType(0x10, 0, rt, rd, 0, 0)
    case Mtc0(rt, rd) => RType(0x10, 4, rt, rd, 0, 0)
    case Tlbwi => RType(0x10, 16, 0, 0, 0, 0x02)
    case Eret => RType(0x10, 16, 0, 0, 0, 0x18)
    case Syscall => RType(0, 0, 0, 0, 0, 0x0c)
  }

  lemma RFields(op: nat, rs: Reg, rt: Reg, rd: Reg, shift: nat, fn: nat)
    requires op < 64 && shift < 32 && fn < 64
    ensures var w := RType(op, rs, rt, rd, shift, fn);
            && w / 0x400_0000 == op && w / 0x20_0000 % 32 == rs && w / 0x1_0000 % 32 == rt && w / 0x800 % 32 == rd
            && w / 0x40 % 32 == shift && w % 0x40 == fn
  {
    var w := RType(op, rs, rt, rd, shift, fn);
    assert w / 0x20_0000 == op * 32 + rs;
    assert w / 0x1_0000 == (op * 32 + rs) * 32 + rt;
    assert w / 0x800 == ((op * 32 + rs) * 32 + rt) * 32 + rd;
    assert w / 0x40 == (((op * 32 + rs) * 32 + rt) * 32 + rd) * 32 + shift;
  }

  lemma IFields(op: nat, rs: Reg, rt: Reg, imm: nat)
    requires op < 64 && imm < 0x1_0000
    ensures var w := IType(op, rs, rt, imm);
            w / 0x400_0000 == op && w / 0x20_0000 % 32 == rs && w / 0x1_0000 % 32 == rt && w % 0x1_0000 == imm
  {
    var w := IType(op, rs, rt, imm);
    assert w / 0x20_0000 == op * 32 + rs;
    assert w / 0x1_0000 == (op * 32 + rs) * 32 + rt;
  }

  /** The decoder reads every instruction the way it is written. */
  lemma DecodeEncode(i: Instr)
    requires Assembles(i)
    ensures Decode(Encode(i)) == i
  {
    hide RType, IType, DecodeSpecial;
    match i
    case Imm(op, rt, rs, imm) => IFields(ImmCode(op), rs, rt, imm);
    case Branch(cond, rs, rt, imm) => IFields(BranchCode(cond), rs, rt, imm);
    case Load(width, rt, rs, imm) => IFields(LoadCode(width), rs, rt, imm);
    case Store(width, rt, rs, imm) => IFields(if width == Full then 0x2b else 0x28, rs, rt, imm);
    case Mfc0(rt, rd) => RFields(0x10, 0, rt, rd, 0, 0);
    case Mtc0(rt, rd) => RFields(0x10, 4, rt, rd, 0, 0);
    case Tlbwi => RFields(0x10, 16, 0, 0, 0, 0x02);
    case Eret => RFields(0x10, 16, 0, 0, 0, 0x18);
    case J(_) =>
    case Jal(_) =>
    case _ =>
      SpecialEncode(i);
  }

  lemma SpecialEncode(i: Instr)
    requires Assembles(i)
    requires i.Alu? || i.Shift? || i.Jr? || i.Jalr? || i.Mfhi? || i.Mthi? || i.Mflo? || i.Mtlo? || i.Mult? || i.Syscall?
    ensures DecodeSpecial(Encode(i)) == i && Encode(i) / 0x400_0000 == 0
  {
    hide RType;
    match i
    case Alu(op, rd, rs, rt) => RFields(0, rs, rt, rd, 0, AluFn(op));
    case Shift(op, rd, rt, n) => RFields(0, 0, rt, rd, n, ShiftFn(op));
    case Jr(rs) => RFields(0, rs, 0, 0, 0, 0x08);
    case Jalr(rd, rs) => RFields(0, rs, 0, rd, 0, 0x09);
    case Mfhi(rd) => RFields(0, 0, 0, rd, 0, 0x10);
    case Mthi(rs) => RFields(0, rs, 0, 0, 0, 0x11);
    case Mflo(rd) => RFields(0, 0, 0, rd, 0, 0x12);
    case Mtlo(rs) => RFields(0, rs, 0, 0, 0, 0x13);
    case Mult(rs, rt) => RFields(0, rs, rt, 0, 0, 0x18);
    case Syscall => RFields(0, 0, 0, 0, 0, 0x0c);
  }

  // --- bits ---

  /** Bit i of a number, in two's complement where it is negative */
  predicate Bit(x: int, i: nat)
    decreases i
  {
    if i == 0 then x % 2 == 1 else Bit(x / 2, i - 1)
  }

  lemma {:induction false} BitwiseAt(f: (bool, bool) -> bool, a: nat, b: nat, n: nat, i: nat)
    ensures Bitwise(f, a, b, n) < Power(n)
    ensures i < n ==> Bit(Bitwise(f, a, b, n), i) == f(Bit(a, i), Bit(b, i))
    decreases n
  {
    if n > 0 {
      BitwiseAt(f, a / 2, b / 2, n - 1, if i > 0 then i - 1 else 0);
      var low, rest := Flag(f(a % 2 == 1, b % 2 == 1)), Bitwise(f, a / 2, b / 2, n - 1);
      assert (low + 2 * rest) / 2 == rest && (low + 2 * rest) % 2 == low;
    }
  }

  lemma Power32()
    ensures Power(32) == 0x1_0000_0000
  {
    hide Power;
    PowerEight();
    PowerSum(8, 8);
    PowerSum(16, 16);
  }

  lemma {:induction false} PowerSum(a: nat, b: nat)
    ensures Power(a + b) == Power(a) * Power(b)
  {
    if a > 0 {
      PowerSum(a - 1, b);
    }
  }

  lemma {:induction false} LowBits(x: int, n: nat, i: nat)
    requires i < n
    ensures Bit(x % Power(n), i) == Bit(x, i)
    decreases n
  {
    Halved(x, Power(n - 1));
    if i > 0 {
      LowBits(x / 2, n - 1, i - 1);
    }
  }

  lemma Halved(x: int, p: nat)
    requires p > 0
    ensures x % (2 * p) / 2 == x / 2 % p && x % (2 * p) % 2 == x % 2 && x / (2 * p) == x / 2 / p
  {
    var q, r := x / 2 / p, x / 2 % p;
    assert x / 2 == q * p + r && x == 2 * (x / 2) + x % 2;
    var low := 2 * r + x % 2;
    assert x == q * (2 * p) + low && 0 <= low < 2 * p;
    Unique(x, 2 * p, q, low);
  }

  lemma Unique(x: int, d: nat, q: int, r: int)
    requires d > 0 && x == q * d + r && 0 <= r < d
    ensures x / d == q && x % d == r
  {
    var e := x / d - q;
    assert x == x / d * d + x % d;
    assert e * d == r - x % d;
    if e > 0 {
      Multiple(e, d);
    }
  }

  lemma Multiple(e: nat, d: nat)
    requires e > 0
    ensures e * d >= d
  {
    assert e * d == (e - 1) * d + d && (e - 1) * d >= 0;
  }

  lemma WrapBits(x: int, i: nat)
    requires i < 32
    ensures Bit(Wrap(x), i) == Bit(x, i)
  {
    Power32();
    LowBits(x, 32, i);
  }

  /** The logical instructions work bit by bit. */
  lemma LogicBits(a: Word, b: Word, i: nat)
    requires i < 32
    ensures Bit(AluValue(And, a, b), i) == (Bit(a, i) && Bit(b, i))
    ensures Bit(AluValue(Or, a, b), i) == (Bit(a, i) || Bit(b, i))
    ensures Bit(AluValue(Xor, a, b), i) == (Bit(a, i) != Bit(b, i))
    ensures Bit(AluValue(Nor, a, b), i) == (!Bit(a, i) && !Bit(b, i))
  {
    hide Bit, Bitwise, Wrap;
    BitwiseAt((x, y) => x && y, a, b, 32, i);
    BitwiseAt((x, y) => x || y, a, b, 32, i);
    BitwiseAt((x, y) => x != y, a, b, 32, i);
    BitwiseAt((x, y) => !x && !y, a, b, 32, i);
    WrapBits(Bitwise((x, y) => x && y, a, b, 32), i);
    WrapBits(Bitwise((x, y) => x || y, a, b, 32), i);
    WrapBits(Bitwise((x, y) => x != y, a, b, 32), i);
    WrapBits(Bitwise((x, y) => !x && !y, a, b, 32), i);
  }

  lemma {:induction false} DownBits(x: int, n: nat, i: nat)
    ensures Bit(x / Power(n), i) == Bit(x, i + n)
    decreases n
  {
    if n > 0 {
      Halved(x, Power(n - 1));
      DownBits(x / 2, n - 1, i);
    }
  }

  lemma {:induction false} UpBits(x: int, n: nat, i: nat)
    ensures Bit(x * Power(n), i) == (i >= n && Bit(x, i - n))
    decreases n
  {
    if n > 0 {
      var y := x * Power(n - 1);
      assert x * Power(n) == 2 * y;
      if i > 0 {
        UpBits(x, n - 1, i - 1);
      }
    }
  }

  /** A word has no bits from 32 on, and its signed reading repeats bit 31 there. */
  lemma HighBits(w: Word, i: nat)
    requires i >= 32
    ensures !Bit(w, i) && Bit(Signed(w), i) == Bit(w, 31)
  {
    hide Bit, Power;
    Power32();
    DownBits(w, 32, i - 32);
    DownBits(Signed(w), 32, i - 32);
    ZeroBits(i - 32);
    SignBit(w);
    assert Signed(w) / 0x1_0000_0000 == if w < 0x8000_0000 then 0 else -1;
  }

  lemma {:induction false} ZeroBits(i: nat)
    ensures !Bit(0, i) && Bit(-1, i)
  {
    if i > 0 {
      ZeroBits(i - 1);
    }
  }

  lemma SignedBits(w: Word, i: nat)
    requires i < 32
    ensures Bit(Signed(w), i) == Bit(w, i)
  {
    WrapBits(Signed(w), i);
  }

  /** Shifts move the bits: zeros come in, or copies of the sign. */
  lemma ShiftBits(w: Word, n: nat, i: nat)
    requires n < 32 && i < 32
    ensures Bit(ShiftValue(Sll, w, n), i) == (i >= n && Bit(w, i - n))
    ensures Bit(ShiftValue(Srl, w, n), i) == (i + n < 32 && Bit(w, i + n))
    ensures Bit(ShiftValue(Sra, w, n), i) == Bit(w, if i + n < 32 then i + n else 31)
  {
    hide Bit, Power, Wrap, Signed;
    WrapBits(w * Power(n), i);
    UpBits(w, n, i);
    WrapBits(w / Power(n), i);
    DownBits(w, n, i);
    WrapBits(Signed(w) / Power(n), i);
    DownBits(Signed(w), n, i);
    if i + n >= 32 {
      HighBits(w, i + n);
    } else {
      SignedBits(w, i + n);
    }
  }

  /** The shifts by a register shift the second operand by the first, as the shifts by a constant do. */
  lemma VariableShifts(w: Word, n: Word)
    ensures AluValue(Sllv, n, w) == ShiftValue(Sll, w, n) && AluValue(Srlv, n, w) == ShiftValue(Srl, w, n)
    ensures AluValue(Srav, n, w) == ShiftValue(Sra, w, n)
  {
    hide ShiftLeft, ShiftRight, ShiftArith;
  }

  // --- numbers ---

  /** Sums and differences are right as signed and as unsigned numbers whenever they fit. */
  lemma SumsFit(a: Word, b: Word)
    ensures a + b < 0x1_0000_0000 ==> AluValue(Addu, a, b) == a + b
    ensures a >= b ==> AluValue(Subu, a, b) == a - b
    ensures -0x8000_0000 <= Signed(a) + Signed(b) < 0x8000_0000 ==>
              Signed(AluValue(Addu, a, b)) == Signed(a) + Signed(b)
    ensures -0x8000_0000 <= Signed(a) - Signed(b) < 0x8000_0000 ==>
              Signed(AluValue(Subu, a, b)) == Signed(a) - Signed(b)
    ensures AluValue(Subu, AluValue(Addu, a, b), b) == a
  {}

  /** slt is sltu once the order of the signs is turned round, and sltu says whether b - a borrows nothing. */
  lemma Comparisons(a: Word, b: Word)
    ensures AluValue(Slt, a, b) == AluValue(Sltu, Wrap(a + 0x8000_0000), Wrap(b + 0x8000_0000))
    ensures AluValue(Sltu, a, b) == 1 <==> a != b && a + AluValue(Subu, b, a) == b
    ensures AluValue(Sltu, a, b) == 0 || AluValue(Sltu, a, b) == 1
  {}

  /** Opposite branches: exactly one of each pair is taken. */
  lemma BranchPairs(a: Word, b: Word)
    ensures Taken(Ltz, a, b) <==> !Taken(Gez, a, b)
    ensures Taken(Eq, a, b) <==> !Taken(Ne, a, b)
    ensures Taken(Lez, a, b) <==> !Taken(Gtz, a, b)
    ensures Taken(Lez, a, b) <==> Taken(Ltz, a, b) || Taken(Eq, a, 0)
    ensures Taken(Ltz, a, b) <==> Bit(a, 31)
    ensures Taken(Ltz, a, b) <==> AluValue(Slt, a, 0) == 1
  {
    hide Bit;
    SignBit(a);
  }

  lemma SignBit(a: Word)
    ensures Bit(a, 31) <==> a >= 0x8000_0000
  {
    hide Power;
    DownBits(a, 31, 0);
    assert Power(31) == 0x8000_0000 by {
      Power32();
      PowerStep(31);
    }
  }

  lemma PowerStep(n: nat)
    ensures Power(n + 1) == 2 * Power(n)
  {}

  /** An immediate operand is the register operand of the same value, sign-extended for addiu and slti alone. */
  lemma Immediates(a: Word, imm: nat)
    requires imm < 0x1_0000
    ensures ImmValue(Addiu, a, imm) == AluValue(Addu, a, Wrap(SignExtend(imm)))
    ensures ImmValue(Slti, a, imm) == AluValue(Slt, a, Wrap(SignExtend(imm)))
    ensures ImmValue(Sltiu, a, imm) == AluValue(Sltu, a, imm)
    ensures ImmValue(Andi, a, imm) == AluValue(And, a, imm) && ImmValue(Ori, a, imm) == AluValue(Or, a, imm)
    ensures ImmValue(Xori, a, imm) == AluValue(Xor, a, imm) && ImmValue(Lui, a, imm) == ShiftValue(Sll, imm, 16)
    ensures Signed(Wrap(SignExtend(imm))) == SignExtend(imm) && Wrap(SignExtend(imm)) % 0x1_0000 == imm
  {
    hide Bitwise, Power;
    SignWord(imm);
    UpperHalf(imm);
  }

  lemma SignWord(imm: nat)
    requires imm < 0x1_0000
    ensures Signed(Wrap(SignExtend(imm))) == SignExtend(imm) && Wrap(SignExtend(imm)) % 0x1_0000 == imm
  {}

  lemma UpperHalf(imm: nat)
    requires imm < 0x1_0000
    ensures ShiftValue(Sll, imm, 16) == imm * 0x1_0000
  {
    hide Power;
    assert Power(16) == 0x1_0000 by {
      PowerSum(8, 8);
      assert Power(8) == 0x100 by { PowerEight(); }
    }
  }

  lemma PowerEight()
    ensures Power(8) == 0x100
  {}

  // --- what an instruction leaves alone ---

  /** The register an instruction writes */
  function Target(i: Instr): (r: int)
    ensures -1 <= r < 32
  {
    match i
    case Alu(_, rd, _, _) => rd
    case Shift(_, rd, _, _) => rd
    case Imm(_, rt, _, _) => rt
    case Jalr(rd, _) => rd
    case Jal(_) => 31
    case Mfhi(rd) => rd
    case Mflo(rd) => rd
    case Load(_, rt, _, _) => rt
    case Mfc0(rt, _) => rt
    case _ => -1
  }

  predicate Jumps(i: Instr) { i.Branch? || i.Jr? || i.Jalr? || i.J? || i.Jal? || i.Eret? }

  /** An instruction that does not fault changes its own register and what it is for, and goes on to the next one. */
  lemma ExecuteFrame(s: State, i: Instr)
    requires s.Shape() && InRange(i) && !Execute(s, i).exception
    ensures var r := Execute(s, i).st;
            && (forall x: Reg | x != Target(i) :: r.regs[x] == s.regs[x])
            && (!Jumps(i) ==> r.pc == Wrap(s.pc + 4))
            && (!i.Mthi? && !i.Mult? ==> r.hi == s.hi) && (!i.Mtlo? && !i.Mult? ==> r.lo == s.lo)
            && (forall x: Reg | !(i.Mtc0? && x == i.rd) && !(i.Eret? && x == SR) :: r.cp0[x] == s.cp0[x])
            && (!i.Tlbwi? ==> r.tlb == s.tlb) && (!i.Store? ==> r.ram == s.ram && r.out == s.out) && r.dev == s.dev
  {
    hide AluValue, ShiftValue, ImmValue, Taken, SignExtend, LoadValue, StoreValue, Wrap;
    if i.Load? {
      R.LoadOnly(s, i.width, Wrap(s.regs[i.rs] + SignExtend(i.imm)));
    } else if i.Store? {
      StoreKeeps(s, i.width, Wrap(s.regs[i.rs] + SignExtend(i.imm)), s.regs[i.rt]);
    }
  }

  lemma StoreKeeps(s: State, width: Width, va: Word, w: Word)
    requires s.Shape() && !StoreValue(s, width, va, w).exception
    ensures var r := StoreValue(s, width, va, w).st; r == s.(ram := r.ram, out := r.out)
  {
    hide AddrTranslate, Poke, PokeWord, AddressFault;
    R.TranslateOnly(s, va, true);
    var pa := AddrTranslate(s, va, true).val;
    if width == Full {
      PokeWordKeeps(s, pa, w);
    } else {
      PokeKeeps(s, pa, w % 0x100);
    }
  }

  lemma PokeKeeps(s: State, pa: nat, b: Byte)
    requires s.Shape()
    ensures var r := Poke(s, pa, b); r == s.(ram := r.ram, out := r.out)
  {}

  lemma PokeWordKeeps(s: State, pa: Word, w: Word)
    requires s.Shape()
    ensures var r := PokeWord(s, pa, w); r == s.(ram := r.ram, out := r.out)
  {
    hide Poke, Wrap;
    PokeKeeps(s, pa, w % 0x100);
    var s1 := Poke(s, pa, w % 0x100);
    PokeKeeps(s1, Wrap(pa + 1), w / 0x100 % 0x100);
    var s2 := Poke(s1, Wrap(pa + 1), w / 0x100 % 0x100);
    PokeKeeps(s2, Wrap(pa + 2), w / 0x1_0000 % 0x100);
    PokeKeeps(Poke(s2, Wrap(pa + 2), w / 0x1_0000 % 0x100), Wrap(pa + 3), w / 0x100_0000);
  }

  /** Subtracting what was added gives the first operand back, for registers and for immediates. */
  lemma AddThenSubtract(s: State, rd: Reg, rs: Reg, rt: Reg, x: Reg, imm: nat)
    requires s.Shape() && 0 < imm < 0x8000
    ensures rd != rt ==> Execute(Execute(s, Alu(Addu, rd, rs, rt)).st, Alu(Subu, x, rd, rt)).st.regs[x] == s.regs[rs]
    ensures Execute(Execute(s, Imm(Addiu, rd, rs, imm)).st, Imm(Addiu, x, rd, 0x1_0000 - imm)).st.regs[x] == s.regs[rs]
  {
    hide Bitwise;
    if rd != rt {
      SumsFit(s.regs[rs], s.regs[rt]);
    }
    BackAndForth(s.regs[rs], imm);
    hide AluValue, ImmValue, Wrap;
  }

  lemma BackAndForth(a: Word, imm: nat)
    requires 0 < imm < 0x8000
    ensures ImmValue(Addiu, ImmValue(Addiu, a, imm), 0x1_0000 - imm) == a
  {
    hide AluValue;
  }

  /** A word a store has put into memory is what a load from the same place gets, in any register. */
  lemma StoreThenLoadWord(s: State, rt: Reg, rs: Reg, imm: nat, x: Reg)
    requires s.Shape() && imm < 0x1_0000 && !Execute(s, Store(Full, rt, rs, imm)).exception
    requires AddrTranslate(s, Wrap(s.regs[rs] + SignExtend(imm)), true).val < RAM_SIZE
    ensures var r := Execute(Execute(s, Store(Full, rt, rs, imm)).st, Load(Full, x, rs, imm));
            !r.exception && r.st.regs[x] == s.regs[rt]
  {
    hide LoadValue, StoreValue, AddrTranslate, SignExtend, Wrap;
    var va := Wrap(s.regs[rs] + SignExtend(imm));
    MM.StoreThenLoad(s, Full, va, s.regs[rt]);
    var r := StoreValue(s, Full, va, s.regs[rt]).st;
    LoadAnywhere(r, Wrap(r.pc + 4), va);
  }

  /** A load does not look at the program counter. */
  lemma LoadAnywhere(s: State, pc: Word, va: Word)
    requires s.Shape() && !LoadValue(s, Full, va).exception
    ensures LoadValue(s.(pc := pc), Full, va) == Read(LoadValue(s, Full, va).val, s.(pc := pc), false)
  {
    hide AddrTranslate, Wrap;
    R.TranslateOnly(s, va, false);
    MM.TranslateSame(s, s.(pc := pc), va);
  }

  /** HI and LO together hold the whole product. */
  lemma MultiplyResult(s: State, rs: Reg, rt: Reg)
    requires s.Shape()
    ensures var r := Execute(s, Mult(rs, rt)).st;
            var a: int, b: int, hi: int, lo: int := s.regs[rs], s.regs[rt], r.hi, r.lo;
            hi * 0x1_0000_0000 + lo == a * b
  {
    var a: int, b: int := s.regs[rs], s.regs[rt];
    Product(a, b);
    hide Execute;
    var r, p := Execute(s, Mult(rs, rt)).st, a * b;
    assert r.hi == Wrap(p / 0x1_0000_0000) && r.lo == Wrap(p) by { MultiplyStep(s, rs, rt); }
    Halves(p);
  }

  lemma MultiplyStep(s: State, rs: Reg, rt: Reg)
    requires s.Shape()
    ensures var r := Execute(s, Mult(rs, rt)).st; var a: int, b: int := s.regs[rs], s.regs[rt];
            r.hi == Wrap(a * b / 0x1_0000_0000) && r.lo == Wrap(a * b)
  {
    hide Wrap;
  }

  lemma Halves(p: int)
    requires 0 <= p / 0x1_0000_0000 < 0x1_0000_0000
    ensures var hi: int, lo: int := Wrap(p / 0x1_0000_0000), Wrap(p); hi * 0x1_0000_0000 + lo == p
  {}

  /** HI, LO and the CP0 registers are read as they were written. */
  lemma Moves(s: State, rs: Reg, rt: Reg, c: Reg)
    requires s.Shape()
    ensures Execute(Execute(s, Mtc0(rs, c)).st, Mfc0(rt, c)).st.regs[rt] == s.regs[rs]
    ensures Execute(Execute(s, Mthi(rs)).st, Mfhi(rt)).st.regs[rt] == s.regs[rs]
    ensures Execute(Execute(s, Mtlo(rs)).st, Mflo(rt)).st.regs[rt] == s.regs[rs]
  {
    hide Wrap;
  }

  lemma Product(a: int, b: int)
    requires 0 <= a < 0x1_0000_0000 && 0 <= b < 0x1_0000_0000
    ensures 0 <= a * b / 0x1_0000_0000 < 0x1_0000_0000
  {
    assert (0xffff_ffff - a) * b >= 0;
  }

  /** Where a jump goes, and that jal or jalr followed by jr through the link register comes back behind it. */
  lemma JumpResult(s: State, i: Instr)
    requires s.Shape() && InRange(i)
    ensures var r := Execute(s, i).st;
      && (i.J? || i.Jal? ==> r.pc / 0x1000_0000 == s.pc / 0x1000_0000 && r.pc % 0x1000_0000 == i.target * 4)
      && (i.Jr? || i.Jalr? ==> r.pc == s.regs[i.rs])
      && (i.Jal? || i.Jalr? ==> Execute(r, Jr(if i.Jal? then 31 else i.rd)).st.pc == Wrap(s.pc + 4))
  {
    hide AluValue, ShiftValue, ImmValue, Taken, LoadValue, StoreValue, WriteTlb, ClearExl, Wrap, SetCode, SignExtend;
    if i.J? || i.Jal? {
      Region(s.pc, i.target);
    }
  }

  lemma Region(pc: Word, target: nat)
    requires target < 0x400_0000
    ensures var r := pc / 0x1000_0000 * 0x1000_0000 + target * 4;
            r / 0x1000_0000 == pc / 0x1000_0000 && r % 0x1000_0000 == target * 4
  {}

  /** A branch that is taken goes `imm` words from the next instruction, back or forth; one that is not goes there. */
  lemma BranchResult(s: State, cond: Cond, rs: Reg, rt: Reg, imm: nat)
    requires s.Shape() && imm < 0x1_0000
    ensures var r := Execute(s, Branch(cond, rs, rt, imm)).st;
            Signed(Wrap(r.pc - Wrap(s.pc + 4))) ==
              if Taken(cond, s.regs[rs], s.regs[rt]) then SignExtend(imm) * 4 else 0
  {
    hide Taken, SignExtend;
    assert -0x8000 <= SignExtend(imm) < 0x8000 by { Extended(imm); }
    Distance(s.pc, if Taken(cond, s.regs[rs], s.regs[rt]) then SignExtend(imm) * 4 else 0);
  }

  lemma Extended(imm: nat)
    requires imm < 0x1_0000
    ensures -0x8000 <= SignExtend(imm) < 0x8000
  {}

  lemma Distance(pc: Word, d: int)
    requires -0x2_0000 <= d < 0x2_0000
    ensures Signed(Wrap(Wrap(pc + d + 4) - Wrap(pc + 4))) == d
  {}

  // --- tlbwi ---

  /** tlb_write as the kernel's code: the four mtc0, each from a general register, and tlbwi */
  function TlbWriteCode(s: State, idx: Reg, hi: Reg, lo0: Reg, lo1: Reg): (r: State)
    requires s.Shape()
  {
    var s1 := Execute(s, Mtc0(idx, INDEX)).st;
    var s2 := Execute(s1, Mtc0(hi, ENTRYHI)).st;
    var s3 := Execute(s2, Mtc0(lo0, ENTRYLO0)).st;
    var s4 := Execute(s3, Mtc0(lo1, ENTRYLO1)).st;
    Execute(s4, Tlbwi).st
  }

  /**
    The kernel's five instructions write the slot it means with the words it means. From then on, unless an earlier slot
    holds the pair too, the even page of the pair is translated by the word meant for EntryLo0 and the odd one by
    that for EntryLo1.
    */
  lemma TlbWriteMeans(s: State, idx: Reg, hi: Reg, lo0: Reg, lo1: Reg, va: Word)
    requires s.Shape() && s.regs[idx] < TLBN
    ensures var r := TlbWriteCode(s, idx, hi, lo0, lo1);
            && r.tlb == s.tlb.Write(s.regs[idx], s.regs[hi], s.regs[lo0], s.regs[lo1])
            && r == s.(tlb := r.tlb, cp0 := r.cp0, pc := r.pc)
    ensures && Selects(s.regs[hi], va) && Mapped(va)
            && (forall j | 0 <= j < s.regs[idx] :: !Selects(s.tlb.key[j], va)) ==>
              var lo := if va / 0x1000 % 2 == 0 then s.regs[lo0] else s.regs[lo1];
              var look := AddrTranslate(TlbWriteCode(s, idx, hi, lo0, lo1), va, false);
              if LoValid(lo) then !look.exception && look.val == LoTarget(lo, va) else look.exception
  {
    hide TlbWriteCode, Selects, LoValid, LoDirty, LoTarget, Mapped, TlbFault;
    TlbWriteSlot(s, idx, hi, lo0, lo1);
    var r := TlbWriteCode(s, idx, hi, lo0, lo1);
    if Selects(s.regs[hi], va) && forall j | 0 <= j < s.regs[idx] :: !Selects(s.tlb.key[j], va) {
      T.FirstMatchIsFirst(r.tlb.key, va, 0);
      var i := s.regs[idx];
      assert forall j | 0 <= j < i :: r.tlb.key[j] == s.tlb.key[j];
      assert r.tlb.key[i] == s.regs[hi] && T.FirstMatch(r.tlb.key, va, 0) == i;
    }
  }

  lemma TlbWriteSlot(s: State, idx: Reg, hi: Reg, lo0: Reg, lo1: Reg)
    requires s.Shape() && s.regs[idx] < TLBN
    ensures var r := TlbWriteCode(s, idx, hi, lo0, lo1);
            && r.tlb == s.tlb.Write(s.regs[idx], s.regs[hi], s.regs[lo0], s.regs[lo1])
            && r == s.(tlb := r.tlb, cp0 := r.cp0, pc := r.pc)
  {
    hide Execute;
    MoveTo(s, idx, INDEX);
    var s1 := Execute(s, Mtc0(idx, INDEX)).st;
    MoveTo(s1, hi, ENTRYHI);
    var s2 := Execute(s1, Mtc0(hi, ENTRYHI)).st;
    MoveTo(s2, lo0, ENTRYLO0);
    var s3 := Execute(s2, Mtc0(lo0, ENTRYLO0)).st;
    MoveTo(s3, lo1, ENTRYLO1);
    SlotWritten(Execute(s3, Mtc0(lo1, ENTRYLO1)).st);
  }

  lemma MoveTo(s: State, from: Reg, to: Reg)
    requires s.Shape()
    ensures var r := Execute(s, Mtc0(from, to)).st; r == s.(cp0 := s.cp0[to := s.regs[from]], pc := r.pc)
  {
    hide Wrap;
  }

  lemma SlotWritten(s: State)
    requires s.Shape() && s.cp0[INDEX] < TLBN
    ensures var r := Execute(s, Tlbwi).st;
            r == s.(tlb := s.tlb.Write(s.cp0[INDEX], s.cp0[ENTRYHI], s.cp0[ENTRYLO0], s.cp0[ENTRYLO1]), pc := r.pc)
  {
    hide Wrap;
  }
}
