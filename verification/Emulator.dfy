/** The emulator as an object whose methods update its registers, CP0, TLB and memory in place. */
module Emulator {
  import opened PageWords
  import T = TlbModel
  import M = Mips
  import opened Mips
  import R = MipsRestart

  class Processor {
    const regs: array<Word>
    const cp0: array<Word>
    const key: array<Word>
    const lo0: array<Word>
    const lo1: array<Word>
    const ram: array<Byte>
    var pc: Word
    var hi: Word
    var lo: Word
    /** The bytes sent to the serial port */
    var out: seq<Byte>
    /** The contents of ROM and flash */
    const dev: map<nat, Byte>

    ghost predicate Valid() {
      && regs.Length == 32 && cp0.Length == 32 && key.Length == lo0.Length == lo1.Length == TLBN
      && ram.Length == RAM_SIZE
      && regs != cp0 && regs != key && regs != lo0 && regs != lo1 && cp0 != key && cp0 != lo0 && cp0 != lo1
      && key != lo0 && key != lo1 && lo0 != lo1
    }

    ghost function Abs(): (s: State)
      requires Valid()
      reads this, regs, cp0, key, lo0, lo1, ram
      ensures s.Shape()
    {
      State(regs[..], pc, hi, lo, cp0[..], T.Tlb(key[..], lo0[..], lo1[..]), ram[..], out, dev)
    }

    /** The reset state; the TLB and memory hold whatever they hold */
    constructor (dev: map<nat, Byte>)
      ensures Valid() && fresh(regs) && fresh(cp0) && fresh(key) && fresh(lo0) && fresh(lo1) && fresh(ram)
      ensures pc == 0xbfc0_0000 && cp0[EBASE] == 0x8000_0180 && !ExceptionLevel(Abs())
    {
      regs, cp0 := new Word[32](_ => 0), new Word[32](i => if i == EBASE then 0x8000_0180 else 0);
      key, lo0, lo1 := new Word[TLBN](_ => 0), new Word[TLBN](_ => 0), new Word[TLBN](_ => 0);
      ram := new Byte[RAM_SIZE](_ => 0);
      pc, hi, lo, out := 0xbfc0_0000, 0, 0, [];
      this.dev := dev;
    }

    /** set_exception_code */
    method SetExceptionCode(code: nat)
      requires Valid() && code < 32
      modifies cp0
      ensures Abs() == SetCode(old(Abs()), code)
    {
      cp0[CAUSE] := cp0[CAUSE] / 0x80 * 0x80 + code * 4 + cp0[CAUSE] % 4;
    }

    /** The CP0 registers addr_translate fills in when the TLB refuses an access */
    method RefuseAccess(va: Word, code: nat)
      requires Valid() && code < 32
      modifies cp0
      ensures Abs() == TlbFault(old(Abs()), va, code)
    {
      SetExceptionCode(code);
      cp0[BADVADDR] := va;
      cp0[CONTEXT] := cp0[CONTEXT] / 0x80_0000 * 0x80_0000 + va / 0x2000 * 0x10 + cp0[CONTEXT] % 0x10;
      cp0[ENTRYHI] := va / 0x2000 * 0x2000 + cp0[ENTRYHI] % 0x2000;
    }

    method RefuseAddress(va: Word, code: nat)
      requires Valid() && code < 32
      modifies cp0
      ensures Abs() == AddressFault(old(Abs()), va, code)
    {
      SetExceptionCode(code);
      cp0[BADVADDR] := va;
    }

    /** addr_translate: the first slot that selects the address decides */
    method AddrTranslate(va: Word, write: bool) returns (pa: Word, exception: bool)
      requires Valid()
      modifies cp0
      ensures Read(pa, Abs(), exception) == M.AddrTranslate(old(Abs()), va, write)
    {
      hide TlbFault, Selects, LoValid, LoDirty, LoTarget, Mapped, Ppn, Half;
      if !Mapped(va) {
        return va % 0x2000_0000, false;
      }
      for i := 0 to TLBN
        invariant T.FirstMatch(key[..], va, 0) == T.FirstMatch(key[..], va, i) && cp0[..] == old(cp0[..])
      {
        if Selects(key[i], va) {
          var entryLo := if Half(Ppn(va)) then lo1[i] else lo0[i];
          if !LoValid(entryLo) {
            RefuseAccess(va, if write then EXC_TLBS else EXC_TLBL);
            return 0, true;
          }
          if !LoDirty(entryLo) && write {
            RefuseAccess(va, EXC_MOD);
            return 0, true;
          }
          return LoTarget(entryLo, va), false;
        }
      }
      RefuseAccess(va, if write then EXC_TLBS else EXC_TLBL);
      return 0, true;
    }

    /** read_physical */
    method PeekAt(pa: nat) returns (b: Byte)
      requires Valid()
      ensures b == Peek(Abs(), pa)
    {
      if pa < RAM_SIZE {
        b := ram[pa];
      } else if IsDevice(pa) {
        b := if pa in dev then dev[pa] else 0;
      } else {
        b := if pa == SERIAL_STATUS then 1 else 0;
      }
    }

    /** write_physical */
    method PokeAt(pa: nat, b: Byte)
      requires Valid()
      modifies ram, this`out
      ensures Abs() == Poke(old(Abs()), pa, b)
    {
      if pa < RAM_SIZE {
        ram[pa] := b;
      }
      if pa == SERIAL_PORT {
        out := out + [b];
      }
    }

    /** read_byte, read_half_word and read_word, with the sign extension of exe_lb */
    method LoadAt(width: Width, va: Word) returns (val: Word, exception: bool)
      requires Valid()
      modifies cp0
      ensures Read(val, Abs(), exception) == LoadValue(old(Abs()), width, va)
    {
      hide M.AddrTranslate, Peek, AddressFault;
      if (width == Full && va % 4 != 0) || (width == UHalf && va % 2 != 0) {
        RefuseAddress(va, EXC_ADEL);
        return 0, true;
      }
      var pa: int;
      pa, exception := AddrTranslate(va, false);
      if exception {
        return 0, true;
      }
      var b0: int, b1: int, b2: int, b3: int := 0, 0, 0, 0;
      b0 := PeekAt(pa);
      if width == UHalf || width == Full {
        b1 := PeekAt(Wrap(pa + 1));
      }
      if width == Full {
        b2 := PeekAt(Wrap(pa + 2));
        b3 := PeekAt(Wrap(pa + 3));
      }
      val := b0 + b1 * 0x100 + b2 * 0x1_0000 + b3 * 0x100_0000;
      if width == SByte && val >= 0x80 {
        val := val + 0xffff_ff00;
      }
    }

    /** write_byte and write_word */
    method StoreAt(width: Width, va: Word, w: Word) returns (exception: bool)
      requires Valid()
      modifies cp0, ram, this`out
      ensures Outcome(Abs(), exception) == StoreValue(old(Abs()), width, va, w)
    {
      hide M.AddrTranslate, Poke, AddressFault;
      if width == Full && va % 4 != 0 {
        RefuseAddress(va, EXC_ADES);
        return true;
      }
      var pa: int;
      pa, exception := AddrTranslate(va, true);
      if !exception {
        PokeAt(pa, w % 0x100);
        if width == Full {
          PokeAt(Wrap(pa + 1), w / 0x100 % 0x100);
          PokeAt(Wrap(pa + 2), w / 0x1_0000 % 0x100);
          PokeAt(Wrap(pa + 3), w / 0x100_0000);
        }
      }
    }

    /** pc_ += n */
    method Advance(n: int)
      requires Valid()
      modifies this`pc
      ensures Abs() == old(Abs()).(pc := Wrap(old(pc) + n))
    {
      pc := Wrap(pc + n);
    }

    /** exe_lb, exe_lbu, exe_lhu, exe_lw, exe_sb and exe_sw */
    method ExecuteAccess(i: Instr) returns (exception: bool)
      requires Valid() && InRange(i) && (i.Load? || i.Store?)
      modifies this`pc, this`out, regs, cp0, ram
      ensures Outcome(Abs(), exception) == Execute(old(Abs()), i)
    {
      hide LoadValue, StoreValue, SignExtend, Wrap;
      var base: int := regs[i.rs];
      var va := Wrap(base + SignExtend(i.imm));
      if i.Load? {
        var val;
        val, exception := LoadAt(i.width, va);
        if !exception {
          regs[i.rt] := val;
        }
      } else {
        exception := StoreAt(i.width, va, regs[i.rt]);
      }
      if !exception {
        Advance(4);
      }
    }

    /** The instructions that compute a register and go on to the next instruction */
    method ExecuteArithmetic(i: Instr)
      requires Valid() && InRange(i)
      requires i.Alu? || i.Shift? || i.Imm? || i.Mfhi? || i.Mthi? || i.Mflo? || i.Mtlo? || i.Mult? || i.Cache?
      modifies this`pc, this`hi, this`lo, regs
      ensures Outcome(Abs(), false) == Execute(old(Abs()), i)
    {
      hide AluValue, ShiftValue, ImmValue, Wrap;
      match i {
        case Alu(op, rd, rs, rt) => regs[rd] := AluValue(op, regs[rs], regs[rt]);
        case Shift(op, rd, rt, n) => regs[rd] := ShiftValue(op, regs[rt], n);
        case Imm(op, rt, rs, imm) => regs[rt] := ImmValue(op, regs[rs], imm);
        case Mfhi(rd) => regs[rd] := hi;
        case Mthi(rs) => hi := regs[rs];
        case Mflo(rd) => regs[rd] := lo;
        case Mtlo(rs) => lo := regs[rs];
        case Mult(rs, rt) =>
          var a: int, b: int := regs[rs], regs[rt];
          var product := a * b;
          hi, lo := Wrap(product / 0x1_0000_0000), Wrap(product);
        case Cache =>
      }
      Advance(4);
    }

    /** Branches and jumps */
    method ExecuteJump(i: Instr)
      requires Valid() && InRange(i) && (i.Branch? || i.Jr? || i.Jalr? || i.J? || i.Jal?)
      modifies this`pc, regs
      ensures Outcome(Abs(), false) == Execute(old(Abs()), i)
    {
      hide Taken, SignExtend;
      match i {
        case Branch(cond, rs, rt, imm) =>
          Advance((if Taken(cond, regs[rs], regs[rt]) then SignExtend(imm) * 4 else 0) + 4);
        case Jr(rs) =>
          pc := regs[rs];
        case Jalr(rd, rs) =>
          var here: int, npc := pc, regs[rs];
          regs[rd] := Wrap(here + 4);
          pc := npc;
        case J(target) =>
          pc := pc / 0x1000_0000 * 0x1000_0000 + target * 4;
        case Jal(target) =>
          var here: int := pc;
          regs[31] := Wrap(here + 4);
          pc := pc / 0x1000_0000 * 0x1000_0000 + target * 4;
      }
    }

    /** exe_tlbwi */
    method WriteSlot()
      requires Valid()
      modifies key, lo0, lo1
      ensures Abs() == WriteTlb(old(Abs()))
    {
      var i := cp0[INDEX];
      if i < TLBN {
        key[i], lo0[i], lo1[i] := cp0[ENTRYHI], cp0[ENTRYLO0], cp0[ENTRYLO1];
      }
    }

    /** unset_Status_EXL */
    method LeaveLevel()
      requires Valid()
      modifies cp0
      ensures Abs() == ClearExl(old(Abs()))
    {
      if cp0[SR] / 2 % 2 == 1 {
        cp0[SR] := cp0[SR] - 2;
      }
    }

    /** exe_mfc0 and exe_mtc0 */
    method ExecuteMove(i: Instr)
      requires Valid() && (i.Mfc0? || i.Mtc0?)
      modifies this`pc, regs, cp0
      ensures Outcome(Abs(), false) == Execute(old(Abs()), i)
    {
      hide Wrap;
      if i.Mfc0? {
        regs[i.rt] := cp0[i.rd];
      } else {
        cp0[i.rd] := regs[i.rt];
      }
      Advance(4);
    }

    /** exe_tlbwi, exe_eret, and the instructions that always raise */
    method ExecuteSystem(i: Instr) returns (exception: bool)
      requires Valid() && (i.Tlbwi? || i.Eret? || i.Syscall? || i.Reserved?)
      modifies this`pc, cp0, key, lo0, lo1
      ensures Outcome(Abs(), exception) == Execute(old(Abs()), i)
    {
      hide WriteTlb, SetCode, Wrap;
      exception := i.Syscall? || i.Reserved?;
      match i {
        case Tlbwi =>
          WriteSlot();
          Advance(4);
        case Eret =>
          pc := cp0[EPC];
          LeaveLevel();
        case Syscall =>
          SetExceptionCode(EXC_SYSCALL);
        case Reserved =>
          SetExceptionCode(EXC_RI);
      }
    }

    /** The exe_ method of an instruction */
    method ExecuteInstr(i: Instr) returns (exception: bool)
      requires Valid() && InRange(i)
      modifies this, regs, cp0, key, lo0, lo1, ram
      ensures Outcome(Abs(), exception) == Execute(old(Abs()), i)
    {
      hide Execute;
      exception := false;
      if i.Load? || i.Store? {
        exception := ExecuteAccess(i);
      } else if i.Branch? || i.Jr? || i.Jalr? || i.J? || i.Jal? {
        ExecuteJump(i);
      } else if i.Mfc0? || i.Mtc0? {
        ExecuteMove(i);
      } else if i.Tlbwi? || i.Eret? || i.Syscall? || i.Reserved? {
        exception := ExecuteSystem(i);
      } else {
        ExecuteArithmetic(i);
      }
    }

    /** The clock check at the end of next */
    method TickClock() returns (exception: bool)
      requires Valid()
      modifies cp0
      ensures Outcome(Abs(), exception) == Clock(old(Abs()))
    {
      exception := false;
      if cp0[COUNT] >= cp0[COMPARE] {
        cp0[COUNT] := 0;
        if cp0[SR] % 8 == 1 && cp0[SR] / 0x8000 % 2 == 1 {
          if cp0[CAUSE] / 0x8000 % 2 == 0 {
            cp0[CAUSE] := cp0[CAUSE] + 0x8000;
          }
          SetExceptionCode(EXC_INT);
          exception := true;
        }
      }
    }

    /** next, up to the clock check: fetch, decode and execute */
    method Next() returns (exception: bool)
      requires Valid()
      modifies this, regs, cp0, key, lo0, lo1, ram
      ensures Outcome(Abs(), exception) == Attempt(old(Abs()))
    {
      hide LoadValue, Decode, Execute;
      var count: int := cp0[COUNT];
      regs[0] := 0;
      cp0[COUNT] := Wrap(count + 1);
      assert Abs() == Begin(old(Abs()));
      var instruction;
      instruction, exception := LoadAt(Full, pc);
      LoadIsFetch(Begin(old(Abs())), old(pc));
      if !exception {
        exception := ExecuteInstr(Decode(instruction));
      }
    }

    lemma LoadIsFetch(s: State, va: Word)
      requires s.Shape()
      ensures LoadValue(s, Full, va) == ReadWord(s, va)
    {}

    /**
      One iteration of the loop in run. When the instruction itself faults outside exception level, no register but
      zero, no byte and no TLB slot has changed, EPC is at the instruction and the handler comes next.
      */
    method RunOnce() returns (fault: bool)
      requires Valid()
      modifies this, regs, cp0, key, lo0, lo1, ram
      ensures Abs() == Step(old(Abs())) && fault == Attempt(old(Abs())).exception
      ensures fault && !old(ExceptionLevel(Abs())) ==> regs[1..] == old(regs[1..]) && hi == old(hi) && lo == old(lo)
      ensures fault && !old(ExceptionLevel(Abs())) ==> ram[..] == old(ram[..]) && out == old(out)
      ensures fault && !old(ExceptionLevel(Abs())) ==>
                Abs().tlb == old(Abs()).tlb && cp0[EPC] == old(pc) && pc == old(cp0[EBASE])
    {
      hide Attempt, Clock;
      ghost var s := Abs();
      fault := Next();
      var exception := fault;
      if !fault {
        exception := TickClock();
      }
      if exception {
        if cp0[SR] / 2 % 2 != 1 {
          cp0[EPC] := pc;
        }
        pc := cp0[EBASE];
        if cp0[SR] / 2 % 2 != 1 {
          cp0[SR] := cp0[SR] + 2;
        }
      }
      assert Abs() == Step(s);
      if fault && !ExceptionLevel(s) {
        R.FaultIsPrecise(s);
        forall r | 1 <= r < 32 ensures regs[r] == s.regs[r] {}
      }
    }
  }
}
