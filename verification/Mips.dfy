/**
  One step of the MIPS32 emulator (src/cpu.h, src/cpu.cc, src/cpu_instructions.cc, src/cp0.h, src/mmu.h) as a function.
  */
module Mips {
  import opened PageWords
  import opened TlbModel

  type Byte = b: int | 0 <= b < 0x100 witness 0

  /** A register number */
  type Reg = r: int | 0 <= r < 32 witness 0

  function Wrap(x: int): Word { x % 0x1_0000_0000 }

  function Signed(w: Word): int { if w < 0x8000_0000 then w else w - 0x1_0000_0000 }

  // --- instructions ---

  datatype AluOp = Addu | Subu | And | Or | Xor | Nor | Slt | Sltu | Sllv | Srlv | Srav

  datatype ShiftOp = Sll | Srl | Sra

  datatype ImmOp = Addiu | Slti | Sltiu | Andi | Ori | Xori | Lui

  datatype Cond = Ltz | Gez | Eq | Ne | Lez | Gtz

  datatype Width = SByte | UByte | UHalf | Full

  datatype Instr =
    | Alu(aop: AluOp, rd: Reg, rs: Reg, rt: Reg)
    | Shift(sop: ShiftOp, rd: Reg, rt: Reg, amount: nat)
    | Imm(iop: ImmOp, rt: Reg, rs: Reg, imm: nat)
    | Branch(cond: Cond, rs: Reg, rt: Reg, imm: nat)
    | Jr(rs: Reg) | Jalr(rd: Reg, rs: Reg) | J(target: nat) | Jal(target: nat)
    | Mfhi(rd: Reg) | Mthi(rs: Reg) | Mflo(rd: Reg) | Mtlo(rs: Reg) | Mult(rs: Reg, rt: Reg)
    | Load(width: Width, rt: Reg, rs: Reg, imm: nat)
    | Store(width: Width, rt: Reg, rs: Reg, imm: nat)
    | Mfc0(rt: Reg, rd: Reg) | Mtc0(rt: Reg, rd: Reg) | Tlbwi | Eret
    | Cache | Syscall | Reserved

  /** The 16-bit immediate as a signed number */
  function SignExtend(imm: nat): int
    requires imm < 0x1_0000
  {
    if imm < 0x8000 then imm else imm - 0x1_0000
  }

  /** The immediates and targets of a decoded word are in range, and there is no store of half a word. */
  predicate InRange(i: Instr) {
    && (i.Shift? ==> i.amount < 32)
    && (i.Imm? ==> i.imm < 0x1_0000) && (i.Branch? ==> i.imm < 0x1_0000)
    && (i.Load? ==> i.imm < 0x1_0000) && (i.Store? ==> i.imm < 0x1_0000 && (i.width == Full || i.width == UByte))
    && (i.J? ==> i.target < 0x400_0000) && (i.Jal? ==> i.target < 0x400_0000)
  }

  /** instruction_decode, opcode zero */
  function DecodeSpecial(w: Word): (i: Instr)
    ensures InRange(i)
  {
    var rs: Reg, rt: Reg, rd: Reg, shift := w / 0x20_0000 % 32, w / 0x1_0000 % 32, w / 0x800 % 32, w / 0x40 % 32;
    match w % 0x40
    case 0x00 => Shift(Sll, rd, rt, shift)
    case 0x02 => Shift(Srl, rd, rt, shift)
    case 0x03 => Shift(Sra, rd, rt, shift)
    case 0x04 => Alu(Sllv, rd, rs, rt)
    case 0x06 => Alu(Srlv, rd, rs, rt)
    case 0x07 => Alu(Srav, rd, rs, rt)
    case 0x08 => Jr(rs)
    case 0x09 => Jalr(rd, rs)
    case 0x0c => Syscall
    case 0x10 => Mfhi(rd)
    case 0x11 => Mthi(rs)
    case 0x12 => Mflo(rd)
    case 0x13 => Mtlo(rs)
    case 0x18 => Mult(rs, rt)
    case 0x21 => Alu(Addu, rd, rs, rt)
    case 0x23 => Alu(Subu, rd, rs, rt)
    case 0x24 => Alu(And, rd, rs, rt)
    case 0x25 => Alu(Or, rd, rs, rt)
    case 0x26 => Alu(Xor, rd, rs, rt)
    case 0x27 => Alu(Nor, rd, rs, rt)
    case 0x2a => Alu(Slt, rd, rs, rt)
    case 0x2b => Alu(Sltu, rd, rs, rt)
    case _ => Reserved
  }

  /** instruction_decode */
  function Decode(w: Word): (i: Instr)
    ensures InRange(i)
  {
    var rs: Reg, rt: Reg, rd: Reg, imm := w / 0x20_0000 % 32, w / 0x1_0000 % 32, w / 0x800 % 32, w % 0x1_0000;
    match w / 0x400_0000
    case 0x00 => DecodeSpecial(w)
    case 0x01 => if rt == 0 then Branch(Ltz, rs, rt, imm) else if rt == 1 then Branch(Gez, rs, rt, imm) else Reserved
    case 0x02 => J(w % 0x400_0000)
    case 0x03 => Jal(w % 0x400_0000)
    case 0x04 => Branch(Eq, rs, rt, imm)
    case 0x05 => Branch(Ne, rs, rt, imm)
    case 0x06 => Branch(Lez, rs, rt, imm)
    case 0x07 => Branch(Gtz, rs, rt, imm)
    case 0x09 => Imm(Addiu, rt, rs, imm)
    case 0x0a => Imm(Slti, rt, rs, imm)
    case 0x0b => Imm(Sltiu, rt, rs, imm)
    case 0x0c => Imm(Andi, rt, rs, imm)
    case 0x0d => Imm(Ori, rt, rs, imm)
    case 0x0e => Imm(Xori, rt, rs, imm)
    case 0x0f => Imm(Lui, rt, rs, imm)
    case 0x10 =>
      if w % 0x40 == 0x00 then (if rs == 0 then Mfc0(rt, rd) else if rs == 4 then Mtc0(rt, rd) else Reserved)
      else if w % 0x40 == 0x02 then Tlbwi
      else if w % 0x40 == 0x18 then Eret
      else Reserved
    case 0x20 => Load(SByte, rt, rs, imm)
    case 0x23 => Load(Full, rt, rs, imm)
    case 0x24 => Load(UByte, rt, rs, imm)
    case 0x25 => Load(UHalf, rt, rs, imm)
    case 0x28 => Store(UByte, rt, rs, imm)
    case 0x2b => Store(Full, rt, rs, imm)
    case 0x2f => Cache
    case _ => Reserved
  }

  // --- the state ---

  // CP0 registers
  const INDEX := 0
  const ENTRYLO0 := 2
  const ENTRYLO1 := 3
  const CONTEXT := 4
  const BADVADDR := 8
  const COUNT := 9
  const ENTRYHI := 10
  const COMPARE := 11
  const SR := 12
  const CAUSE := 13
  const EPC := 14
  const EBASE := 15

  // exception codes
  const EXC_INT := 0
  const EXC_MOD := 1
  const EXC_TLBL := 2
  const EXC_TLBS := 3
  const EXC_ADEL := 4
  const EXC_ADES := 5
  const EXC_SYSCALL := 8
  const EXC_RI := 10

  /** ram and the bytes sent to the serial port change; `dev`, the contents of ROM and flash, does not. */
  datatype State = State(regs: seq<Word>, pc: Word, hi: Word, lo: Word, cp0: seq<Word>, tlb: Tlb,
                         ram: seq<Byte>, out: seq<Byte>, dev: map<nat, Byte>)
  {
    predicate Shape() { |regs| == 32 && |cp0| == 32 && tlb.Shape() && |ram| == RAM_SIZE }

    function SetCp0(r: Reg, v: Word): (s: State)
      requires Shape()
      ensures s.Shape()
    {
      this.(cp0 := cp0[r := v])
    }

    /** registers_[r] = v; pc_ += 4 */
    function SetReg(r: Reg, v: Word): (s: State)
      requires Shape()
      ensures s.Shape()
    {
      this.(regs := regs[r := v], pc := Wrap(pc + 4))
    }
  }

  /** The outcome of an operation that may raise: the state it leaves, and whether `exception` is set */
  datatype Outcome = Outcome(st: State, exception: bool)

  datatype Read = Read(val: Word, st: State, exception: bool)

  // --- cp0.h ---

  predicate ExceptionLevel(s: State)
    requires s.Shape()
  {
    s.cp0[SR] / 2 % 2 == 1
  }

  function SetExl(s: State): (r: State)
    requires s.Shape()
    ensures r.Shape()
  {
    if ExceptionLevel(s) then s else s.SetCp0(SR, s.cp0[SR] + 2)
  }

  function ClearExl(s: State): (r: State)
    requires s.Shape()
    ensures r.Shape()
  {
    if ExceptionLevel(s) then s.SetCp0(SR, s.cp0[SR] - 2) else s
  }

  /** set_exception_code: bits 2 to 6 of Cause */
  function SetCode(s: State, code: nat): (r: State)
    requires s.Shape() && code < 32
    ensures r.Shape()
  {
    s.SetCp0(CAUSE, s.cp0[CAUSE] / 0x80 * 0x80 + code * 4 + s.cp0[CAUSE] % 4)
  }

  /** set_interrupt_code(IP_7): bit 15 of Cause */
  function SetClockPending(s: State): (r: State)
    requires s.Shape()
    ensures r.Shape()
  {
    if s.cp0[CAUSE] / 0x8000 % 2 == 1 then s else s.SetCp0(CAUSE, s.cp0[CAUSE] + 0x8000)
  }

  /** IE set, EXL and ERL clear, and the clock not masked */
  predicate ClockEnabled(s: State)
    requires s.Shape()
  {
    s.cp0[SR] % 8 == 1 && s.cp0[SR] / 0x8000 % 2 == 1
  }

  // --- mmu.h ---

  /** What addr_translate leaves in CP0 when the TLB refuses an access */
  function TlbFault(s: State, va: Word, code: nat): (r: State)
    requires s.Shape() && code < 32
    ensures r.Shape()
  {
    var context := s.cp0[CONTEXT] / 0x80_0000 * 0x80_0000 + va / 0x2000 * 0x10 + s.cp0[CONTEXT] % 0x10;
    var entryHi := va / 0x2000 * 0x2000 + s.cp0[ENTRYHI] % 0x2000;
    SetCode(s, code).SetCp0(BADVADDR, va).SetCp0(CONTEXT, context).SetCp0(ENTRYHI, entryHi)
  }

  function AddressFault(s: State, va: Word, code: nat): (r: State)
    requires s.Shape() && code < 32
    ensures r.Shape()
  {
    SetCode(s, code).SetCp0(BADVADDR, va)
  }

  /** addr_translate */
  function AddrTranslate(s: State, va: Word, write: bool): (r: Read)
    requires s.Shape()
    ensures r.st.Shape()
  {
    if !Mapped(va) then Read(va % 0x2000_0000, s, false)
    else match Translate(s.tlb, va, write)
      case Hit(pa) => Read(pa, s, false)
      case Modified => Read(0, TlbFault(s, va, EXC_MOD), true)
      case _ => Read(0, TlbFault(s, va, if write then EXC_TLBS else EXC_TLBL), true)
  }

  const RAM_SIZE := 0x80_0000
  const SERIAL_PORT := 0x1fd0_03f8
  const SERIAL_STATUS := 0x1fd0_03fc

  predicate IsDevice(pa: nat) { 0x1fc0_0000 <= pa < 0x1fc0_1000 || 0x1e00_0000 <= pa < 0x1e80_0000 }

  /** read_physical */
  function Peek(s: State, pa: nat): Byte
    requires s.Shape()
  {
    if pa < RAM_SIZE then s.ram[pa]
    else if IsDevice(pa) then (if pa in s.dev then s.dev[pa] else 0)
    else if pa == SERIAL_STATUS then 1
    else 0
  }

  /** write_physical */
  function Poke(s: State, pa: nat, b: Byte): (r: State)
    requires s.Shape()
    ensures r.Shape()
  {
    if pa < RAM_SIZE then s.(ram := s.ram[pa := b])
    else if pa == SERIAL_PORT then s.(out := s.out + [b])
    else s
  }

  function PokeWord(s: State, pa: Word, w: Word): (r: State)
    requires s.Shape()
    ensures r.Shape()
  {
    var s1 := Poke(s, pa, w % 0x100);
    var s2 := Poke(s1, Wrap(pa + 1), w / 0x100 % 0x100);
    var s3 := Poke(s2, Wrap(pa + 2), w / 0x1_0000 % 0x100);
    Poke(s3, Wrap(pa + 3), w / 0x100_0000)
  }

  function ReadByte(s: State, va: Word): (r: Read)
    requires s.Shape()
    ensures r.st.Shape() && r.val < 0x100
  {
    var t := AddrTranslate(s, va, false);
    if t.exception then Read(0, t.st, true) else Read(Peek(t.st, t.val), t.st, false)
  }

  function ReadHalf(s: State, va: Word): (r: Read)
    requires s.Shape()
    ensures r.st.Shape() && r.val < 0x1_0000
  {
    if va % 2 != 0 then Read(0, AddressFault(s, va, EXC_ADEL), true)
    else
      var t := AddrTranslate(s, va, false);
      if t.exception then Read(0, t.st, true)
      else Read(Peek(t.st, t.val) + Peek(t.st, Wrap(t.val + 1)) * 0x100, t.st, false)
  }

  function ReadWord(s: State, va: Word): (r: Read)
    requires s.Shape()
    ensures r.st.Shape()
  {
    if va % 4 != 0 then Read(0, AddressFault(s, va, EXC_ADEL), true)
    else
      var t := AddrTranslate(s, va, false);
      if t.exception then Read(0, t.st, true)
      else Read(Peek(t.st, t.val) + Peek(t.st, Wrap(t.val + 1)) * 0x100 + Peek(t.st, Wrap(t.val + 2)) * 0x1_0000 +
                Peek(t.st, Wrap(t.val + 3)) * 0x100_0000, t.st, false)
  }

  function WriteByte(s: State, va: Word, b: Byte): (r: Outcome)
    requires s.Shape()
    ensures r.st.Shape()
  {
    var t := AddrTranslate(s, va, true);
    if t.exception then Outcome(t.st, true) else Outcome(Poke(t.st, t.val, b), false)
  }

  function WriteWord(s: State, va: Word, w: Word): (r: Outcome)
    requires s.Shape()
    ensures r.st.Shape()
  {
    if va % 4 != 0 then Outcome(AddressFault(s, va, EXC_ADES), true)
    else
      var t := AddrTranslate(s, va, true);
      if t.exception then Outcome(t.st, true)
      else
        Outcome(PokeWord(t.st, t.val, w), false)
  }

  // --- cpu_instructions.cc ---

  function Power(n: nat): (p: nat)
    ensures p > 0
  {
    if n == 0 then 1 else 2 * Power(n - 1)
  }

  function ShiftLeft(w: Word, n: nat): Word { if n >= 32 then 0 else Wrap(w * Power(n)) }

  function ShiftRight(w: Word, n: nat): Word { if n >= 32 then 0 else Wrap(w / Power(n)) }

  /** The division rounds down, as an arithmetic shift does. */
  function ShiftArith(w: Word, n: nat): Word {
    if n < 32 then Wrap(Signed(w) / Power(n)) else if w < 0x8000_0000 then 0 else 0xffff_ffff
  }

  function Flag(b: bool): Word { if b then 1 else 0 }

  /** The low n bits of a and b combined bit by bit */
  function Bitwise(f: (bool, bool) -> bool, a: nat, b: nat, n: nat): nat {
    if n == 0 then 0 else Flag(f(a % 2 == 1, b % 2 == 1)) + 2 * Bitwise(f, a / 2, b / 2, n - 1)
  }

  function AluValue(op: AluOp, a: Word, b: Word): Word {
    match op
    case Addu => Wrap(a + b)
    case Subu => Wrap(a - b)
    case And => Wrap(Bitwise((x, y) => x && y, a, b, 32))
    case Or => Wrap(Bitwise((x, y) => x || y, a, b, 32))
    case Xor => Wrap(Bitwise((x, y) => x != y, a, b, 32))
    case Nor => Wrap(Bitwise((x, y) => !x && !y, a, b, 32))
    case Slt => Flag(Signed(a) < Signed(b))
    case Sltu => Flag(a < b)
    case Sllv => ShiftLeft(b, a)
    case Srlv => ShiftRight(b, a)
    case Srav => ShiftArith(b, a)
  }

  function ShiftValue(op: ShiftOp, a: Word, n: nat): Word {
    match op
    case Sll => ShiftLeft(a, n)
    case Srl => ShiftRight(a, n)
    case Sra => ShiftArith(a, n)
  }

  function ImmValue(op: ImmOp, a: Word, imm: nat): Word
    requires imm < 0x1_0000
  {
    match op
    case Addiu => Wrap(a + SignExtend(imm))
    case Slti => Flag(Signed(a) < SignExtend(imm))
    case Sltiu => Flag(a < imm)
    case Andi => AluValue(And, a, imm)
    case Ori => AluValue(Or, a, imm)
    case Xori => AluValue(Xor, a, imm)
    case Lui => imm * 0x1_0000
  }

  predicate Taken(cond: Cond, a: Word, b: Word) {
    match cond
    case Ltz => Signed(a) < 0
    case Gez => Signed(a) >= 0
    case Eq => a == b
    case Ne => a != b
    case Lez => Signed(a) <= 0
    case Gtz => Signed(a) > 0
  }

  function LoadValue(s: State, width: Width, va: Word): (r: Read)
    requires s.Shape()
    ensures r.st.Shape()
  {
    match width
    case SByte => var r := ReadByte(s, va); if r.val < 0x80 then r else Read(r.val + 0xffff_ff00, r.st, r.exception)
    case UByte => ReadByte(s, va)
    case UHalf => ReadHalf(s, va)
    case Full => ReadWord(s, va)
  }

  function StoreValue(s: State, width: Width, va: Word, w: Word): (r: Outcome)
    requires s.Shape()
    ensures r.st.Shape()
  {
    if width == Full then WriteWord(s, va, w) else WriteByte(s, va, w % 0x100)
  }

  /** tlbwi; an index past the last slot is outside the arrays and writes nothing here */
  function WriteTlb(s: State): (r: State)
    requires s.Shape()
    ensures r.Shape()
  {
    var i := s.cp0[INDEX];
    if i < TLBN then s.(tlb := s.tlb.Write(i, s.cp0[ENTRYHI], s.cp0[ENTRYLO0], s.cp0[ENTRYLO1])) else s
  }

  /** The exe_ method of an instruction */
  function Execute(s: State, i: Instr): (r: Outcome)
    requires s.Shape() && InRange(i)
    ensures r.st.Shape()
  {
    match i
    case Alu(op, rd, rs, rt) => Outcome(s.SetReg(rd, AluValue(op, s.regs[rs], s.regs[rt])), false)
    case Shift(op, rd, rt, n) => Outcome(s.SetReg(rd, ShiftValue(op, s.regs[rt], n)), false)
    case Imm(op, rt, rs, imm) => Outcome(s.SetReg(rt, ImmValue(op, s.regs[rs], imm)), false)
    case Branch(cond, rs, rt, imm) =>
      Outcome(s.(pc := Wrap(s.pc + (if Taken(cond, s.regs[rs], s.regs[rt]) then SignExtend(imm) * 4 else 0) + 4)),
              false)
    case Jr(rs) => Outcome(s.(pc := s.regs[rs]), false)
    case Jalr(rd, rs) => Outcome(s.(regs := s.regs[rd := Wrap(s.pc + 4)], pc := s.regs[rs]), false)
    case J(target) => Outcome(s.(pc := s.pc / 0x1000_0000 * 0x1000_0000 + target * 4), false)
    case Jal(target) => Outcome(s.(regs := s.regs[31 := Wrap(s.pc + 4)],
                                   pc := s.pc / 0x1000_0000 * 0x1000_0000 + target * 4), false)
    case Mfhi(rd) => Outcome(s.SetReg(rd, s.hi), false)
    case Mthi(rs) => Outcome(s.(hi := s.regs[rs], pc := Wrap(s.pc + 4)), false)
    case Mflo(rd) => Outcome(s.SetReg(rd, s.lo), false)
    case Mtlo(rs) => Outcome(s.(lo := s.regs[rs], pc := Wrap(s.pc + 4)), false)
    case Mult(rs, rt) =>
      var a: int, b: int := s.regs[rs], s.regs[rt];
      var product := a * b;
      Outcome(s.(hi := Wrap(product / 0x1_0000_0000), lo := Wrap(product), pc := Wrap(s.pc + 4)), false)
    case Load(width, rt, rs, imm) =>
      var r := LoadValue(s, width, Wrap(s.regs[rs] + SignExtend(imm)));
      if r.exception then Outcome(r.st, true) else Outcome(r.st.SetReg(rt, r.val), false)
    case Store(width, rt, rs, imm) =>
      var r := StoreValue(s, width, Wrap(s.regs[rs] + SignExtend(imm)), s.regs[rt]);
      if r.exception then r else Outcome(r.st.(pc := Wrap(r.st.pc + 4)), false)
    case Mfc0(rt, rd) => Outcome(s.SetReg(rt, s.cp0[rd]), false)
    case Mtc0(rt, rd) => Outcome(s.SetCp0(rd, s.regs[rt]).(pc := Wrap(s.pc + 4)), false)
    case Tlbwi => var t := WriteTlb(s); Outcome(t.(pc := Wrap(t.pc + 4)), false)
    case Eret => Outcome(ClearExl(s).(pc := s.cp0[EPC]), false)
    case Cache => Outcome(s.(pc := Wrap(s.pc + 4)), false)
    case Syscall => Outcome(SetCode(s, EXC_SYSCALL), true)
    case Reserved => Outcome(SetCode(s, EXC_RI), true)
  }

  // --- cpu.h ---

  /** The start of next: register zero reads as zero, and Count advances */
  function Begin(s: State): (r: State)
    requires s.Shape()
    ensures r.Shape()
  {
    var count: int := s.cp0[COUNT];
    s.(regs := s.regs[0 := 0]).SetCp0(COUNT, Wrap(count + 1))
  }

  /** Fetch, decode and execute */
  function Attempt(s: State): (r: Outcome)
    requires s.Shape()
    ensures r.st.Shape()
  {
    var f := ReadWord(Begin(s), s.pc);
    if f.exception then Outcome(f.st, true) else Execute(f.st, Decode(f.val))
  }

  /** The clock check at the end of next */
  function Clock(s: State): (r: Outcome)
    requires s.Shape()
    ensures r.st.Shape()
  {
    if s.cp0[COUNT] < s.cp0[COMPARE] then Outcome(s, false)
    else
      var t := s.SetCp0(COUNT, 0);
      if ClockEnabled(t) then Outcome(SetCode(SetClockPending(t), EXC_INT), true) else Outcome(t, false)
  }

  /** What run does when next has raised */
  function Enter(s: State): (r: State)
    requires s.Shape()
    ensures r.Shape()
  {
    var t := if ExceptionLevel(s) then s else s.SetCp0(EPC, s.pc);
    SetExl(t.(pc := t.cp0[EBASE]))
  }

  /** One iteration of run */
  function Step(s: State): (r: State)
    requires s.Shape()
    ensures r.Shape()
  {
    var a := Attempt(s);
    if a.exception then Enter(a.st)
    else
      var c := Clock(a.st);
      if c.exception then Enter(c.st) else c.st
  }
}
