/** Faults are precise, so a handler that puts things right can have the instruction executed again. */
module MipsRestart {
  import opened PageWords
  import T = TlbModel
  import opened Mips

  /** b is a with nothing changed but CP0, and of that neither SR nor EPC nor EBase. */
  predicate OnlyFaultInfo(a: State, b: State) {
    && a.Shape() && b.Shape() && b == a.(cp0 := b.cp0)
    && b.cp0[SR] == a.cp0[SR] && b.cp0[EPC] == a.cp0[EPC] && b.cp0[EBASE] == a.cp0[EBASE]
  }

  /** What a program can see of the machine, apart from CP0, the TLB and the program counter */
  predicate SameProgram(a: State, b: State) {
    && a.Shape() && b.Shape() && a.hi == b.hi && a.lo == b.lo && a.ram == b.ram && a.out == b.out && a.dev == b.dev
    && forall r | 1 <= r < 32 :: a.regs[r] == b.regs[r]
  }

  lemma TranslateOnly(s: State, va: Word, write: bool)
    requires s.Shape()
    ensures var t := AddrTranslate(s, va, write); OnlyFaultInfo(s, t.st) && (!t.exception ==> t.st == s)
  {
    hide T.Translate, Mapped;
  }

  lemma LoadOnly(s: State, width: Width, va: Word)
    requires s.Shape()
    ensures var r := LoadValue(s, width, va); OnlyFaultInfo(s, r.st) && (!r.exception ==> r.st == s)
  {
    hide AddrTranslate, Peek;
    TranslateOnly(s, va, false);
  }

  lemma StoreOnly(s: State, width: Width, va: Word, w: Word)
    requires s.Shape()
    ensures var r := StoreValue(s, width, va, w); r.exception ==> OnlyFaultInfo(s, r.st)
  {
    hide AddrTranslate, Poke;
    TranslateOnly(s, va, true);
  }

  lemma FetchOnly(s: State, va: Word)
    requires s.Shape()
    ensures var r := ReadWord(s, va); OnlyFaultInfo(s, r.st) && (!r.exception ==> r.st == s)
  {
    LoadOnly(s, Full, va);
  }

  /** An instruction that raises has done nothing but record why. */
  lemma ExecuteFault(s: State, i: Instr)
    requires s.Shape() && InRange(i)
    ensures Execute(s, i).exception ==> OnlyFaultInfo(s, Execute(s, i).st)
  {
    hide AluValue, ShiftValue, ImmValue, Taken, LoadValue, StoreValue, WriteTlb, ClearExl, SignExtend;
    if i.Load? {
      LoadOnly(s, i.width, Wrap(s.regs[i.rs] + SignExtend(i.imm)));
    } else if i.Store? {
      StoreOnly(s, i.width, Wrap(s.regs[i.rs] + SignExtend(i.imm)), s.regs[i.rt]);
    }
  }

  lemma AttemptFault(s: State)
    requires s.Shape()
    ensures Attempt(s).exception ==> OnlyFaultInfo(Begin(s), Attempt(s).st)
  {
    hide Execute, Decode, ReadWord;
    FetchOnly(Begin(s), s.pc);
    var f := ReadWord(Begin(s), s.pc);
    if !f.exception {
      ExecuteFault(f.st, Decode(f.val));
    }
  }

  /** The status registers differ at most in the exception level. */
  predicate SameStatus(a: State, b: State)
    requires a.Shape() && b.Shape()
  {
    a.cp0[SR] / 4 == b.cp0[SR] / 4 && a.cp0[SR] % 2 == b.cp0[SR] % 2
  }

  lemma LevelBits(s: State)
    requires s.Shape()
    ensures ExceptionLevel(SetExl(s)) && !ExceptionLevel(ClearExl(s))
    ensures SameStatus(SetExl(s), s) && SameStatus(ClearExl(s), s)
    ensures ClockEnabled(s) ==> !ExceptionLevel(s)
  {
    BitOne(s.cp0[SR]);
  }

  lemma BitOne(x: int)
    requires x >= 0
    ensures x / 2 % 2 == 0 ==> (x + 2) / 2 % 2 == 1
    ensures x / 2 % 2 == 1 ==> x >= 2 && (x - 2) / 2 % 2 == 0
    ensures x % 8 == 1 ==> x / 2 % 2 == 0
    ensures x / 2 % 2 == 0 ==> (x + 2) / 4 == x / 4 && (x + 2) % 2 == x % 2
    ensures x / 2 % 2 == 1 ==> (x - 2) / 4 == x / 4 && (x - 2) % 2 == x % 2
  {
    var q, r := x / 4, x % 4;
    BitsOf(q, r);
    if r < 2 {
      BitsOf(q, r + 2);
    } else {
      BitsOf(q, r - 2);
    }
    assert x == 4 * q + r;
  }

  lemma BitsOf(q: int, r: int)
    requires 0 <= r < 4
    ensures var x := 4 * q + r; x / 4 == q && x / 2 % 2 == r / 2 && x % 2 == r % 2 && (x % 8 == 1 ==> r == 1)
  {
    assert (4 * q + r) / 2 == 2 * q + r / 2;
  }

  /**
    A step that faults outside exception level changes nothing the program can see and leaves EPC at the instruction.
    */
  lemma FaultIsPrecise(s: State)
    requires s.Shape() && !ExceptionLevel(s) && Attempt(s).exception
    ensures var r := Step(s);
            && SameProgram(r, s) && r.tlb == s.tlb && r.cp0[EPC] == s.pc && r.pc == s.cp0[EBASE] && ExceptionLevel(r)
            && SameStatus(r, s)
  {
    hide Attempt;
    AttemptFault(s);
    var a := Attempt(s).st;
    LevelBits(a.SetCp0(EPC, a.pc).(pc := a.cp0[EBASE]));
  }

  /** A fault inside exception level, such as a miss in the handler itself, keeps the EPC of the first one. */
  lemma NestedFault(s: State)
    requires s.Shape() && ExceptionLevel(s) && Attempt(s).exception
    ensures var r := Step(s);
            && SameProgram(r, s) && r.tlb == s.tlb && r.cp0[EPC] == s.cp0[EPC] && r.pc == s.cp0[EBASE]
            && ExceptionLevel(r) && r.cp0[SR] == s.cp0[SR]
  {
    hide Attempt;
    AttemptFault(s);
  }

  /** The clock interrupts between two instructions: the one before has taken effect, EPC is at the one to come. */
  lemma InterruptIsBetween(s: State)
    requires s.Shape() && !Attempt(s).exception && Clock(Attempt(s).st).exception
    ensures var r, d := Step(s), Attempt(s).st;
            && SameProgram(r, d) && r.regs == d.regs && r.tlb == d.tlb && r.cp0[EPC] == d.pc && r.pc == d.cp0[EBASE]
            && ExceptionLevel(r) && SameStatus(r, d)
            && forall x: Reg | x != CAUSE && x != EPC && x != SR && x != COUNT :: r.cp0[x] == d.cp0[x]
  {
    hide Attempt;
    var d := Attempt(s).st;
    LevelBits(d.SetCp0(COUNT, 0));
    var c := Clock(d).st;
    LevelBits(c.SetCp0(EPC, c.pc).(pc := c.cp0[EBASE]));
  }

  /** The instruction at the program counter, if it can be fetched */
  function Fetched(s: State): Read
    requires s.Shape()
  {
    ReadWord(Begin(s), s.pc)
  }

  /** A state in which the handler is about to return and the clock does not get in between */
  predicate AtEret(h: State) {
    h.Shape() && !Fetched(h).exception && Decode(Fetched(h).val) == Eret && !Clock(Attempt(h).st).exception
  }

  lemma EretResumes(h: State)
    requires AtEret(h)
    ensures var r := Step(h);
            && SameProgram(r, h) && r.tlb == h.tlb && r.pc == h.cp0[EPC] && !ExceptionLevel(r) && SameStatus(r, h)
            && forall x: Reg | x != SR && x != COUNT :: r.cp0[x] == h.cp0[x]
  {
    hide ReadWord, Decode;
    FetchOnly(Begin(h), h.pc);
    var f := Fetched(h);
    LevelBits(f.st);
    var a := Attempt(h).st;
    assert a == ClearExl(f.st).(pc := f.st.cp0[EPC]);
    hide Execute, Attempt;
  }

  // --- what the kernel may change behind the program's back ---

  // the registers the trap code uses and does not restore
  const K0: Reg := 26
  const K1: Reg := 27

  /** Equal for a program that keeps off the kernel's bytes and off k0 and k1. */
  predicate SameOutside(kernel: set<nat>, a: State, b: State) {
    && a.Shape() && b.Shape() && a.hi == b.hi && a.lo == b.lo && a.out == b.out && a.dev == b.dev
    && (forall r | 1 <= r < 32 && r != K0 && r != K1 :: a.regs[r] == b.regs[r])
    && (forall pa: nat | pa < RAM_SIZE && pa !in kernel :: a.ram[pa] == b.ram[pa])
  }

  /**
    A handler that writes only the kernel's own bytes, leaves k0 and k1 as they come, may change the TLB and CP0, and
    returns with the EPC it was given, puts the machine back at the faulting instruction, in the state in which that
    started.
    */
  lemma ReturnReexecutes(kernel: set<nat>, s: State, h: State)
    requires s.Shape() && !ExceptionLevel(s) && Attempt(s).exception
    requires AtEret(h) && SameOutside(kernel, h, Step(s)) && h.cp0[EPC] == Step(s).cp0[EPC]
    ensures var t := Step(h);
            t.pc == s.pc && SameOutside(kernel, t, s) && t.ram == h.ram && t.tlb == h.tlb && !ExceptionLevel(t)
  {
    hide Attempt, Step, AtEret;
    FaultIsPrecise(s);
    EretResumes(h);
  }

  // --- an instruction that keeps off CP0, k0, k1 and the kernel's bytes does not depend on them ---

  predicate NamesCp0(i: Instr) { i.Mfc0? || i.Mtc0? || i.Tlbwi? || i.Eret? }

  /** Register r is an operand or the target of the instruction. */
  predicate Uses(i: Instr, r: Reg) {
    match i
    case Alu(_, rd, rs, rt) => r == rd || r == rs || r == rt
    case Shift(_, rd, rt, _) => r == rd || r == rt
    case Imm(_, rt, rs, _) => r == rt || r == rs
    case Branch(_, rs, rt, _) => r == rs || r == rt
    case Jr(rs) => r == rs
    case Jalr(rd, rs) => r == rd || r == rs
    case J(_) => false
    case Jal(_) => false
    case Mfhi(rd) => r == rd
    case Mthi(rs) => r == rs
    case Mflo(rd) => r == rd
    case Mtlo(rs) => r == rs
    case Mult(rs, rt) => r == rs || r == rt
    case Load(_, rt, rs, _) => r == rt || r == rs
    case Store(_, rt, rs, _) => r == rt || r == rs
    case Mfc0(rt, _) => r == rt
    case Mtc0(rt, _) => r == rt
    case Tlbwi => false
    case Eret => false
    case Cache => false
    case Syscall => false
    case Reserved => false
  }

  predicate UserInstr(i: Instr) { !NamesCp0(i) && !Uses(i, K0) && !Uses(i, K1) }

  /** The bytes an access of that width touches */
  function Touched(pa: Word, width: Width): set<nat> {
    match width
    case Full => {pa, Wrap(pa + 1), Wrap(pa + 2), Wrap(pa + 3)}
    case UHalf => {pa, Wrap(pa + 1)}
    case SByte => {pa}
    case UByte => {pa}
  }

  /** A load of that width from va touches none of the kernel's bytes. */
  predicate LoadsOutside(kernel: set<nat>, s: State, width: Width, va: Word)
    requires s.Shape()
  {
    var t := AddrTranslate(s, va, false);
    !t.exception ==> Touched(t.val, width) !! kernel
  }

  /** Equal outside the kernel's bytes, k0, k1 and CP0 */
  predicate Agree(kernel: set<nat>, a: State, b: State): (r: bool)
    ensures r ==> a.Shape() && b.Shape()
  {
    && a.Shape() && b.Shape() && b == a.(regs := b.regs, ram := b.ram, cp0 := b.cp0)
    && (forall r | 0 <= r < 32 && r != K0 && r != K1 :: a.regs[r] == b.regs[r])
    && (forall pa: nat | pa < RAM_SIZE && pa !in kernel :: a.ram[pa] == b.ram[pa])
  }

  lemma FaultAgree(kernel: set<nat>, a: State, b: State, va: Word, code: nat)
    requires Agree(kernel, a, b) && code < 32
    ensures Agree(kernel, TlbFault(a, va, code), TlbFault(b, va, code))
    ensures Agree(kernel, AddressFault(a, va, code), AddressFault(b, va, code))
    ensures Agree(kernel, SetCode(a, code), SetCode(b, code))
  {}

  lemma TranslateAgree(kernel: set<nat>, a: State, b: State, va: Word, write: bool)
    requires Agree(kernel, a, b)
    ensures var x, y := AddrTranslate(a, va, write), AddrTranslate(b, va, write);
            x.exception == y.exception && x.val == y.val && Agree(kernel, x.st, y.st)
  {
    hide T.Translate, Mapped, TlbFault;
    FaultAgree(kernel, a, b, va, EXC_MOD);
    FaultAgree(kernel, a, b, va, if write then EXC_TLBS else EXC_TLBL);
  }

  lemma PeekAgree(kernel: set<nat>, a: State, b: State, pa: nat)
    requires Agree(kernel, a, b) && pa !in kernel
    ensures Peek(a, pa) == Peek(b, pa)
  {}

  lemma LoadAgree(kernel: set<nat>, a: State, b: State, width: Width, va: Word)
    requires Agree(kernel, a, b) && LoadsOutside(kernel, a, width, va)
    ensures var x, y := LoadValue(a, width, va), LoadValue(b, width, va);
            x.exception == y.exception && x.val == y.val && Agree(kernel, x.st, y.st)
  {
    hide AddrTranslate, Peek, Wrap, AddressFault;
    TranslateAgree(kernel, a, b, va, false);
    TranslateOnly(a, va, false);
    TranslateOnly(b, va, false);
    FaultAgree(kernel, a, b, va, EXC_ADEL);
    hide Agree;
    if !AddrTranslate(a, va, false).exception {
      forall pa | pa in Touched(AddrTranslate(a, va, false).val, width) ensures Peek(a, pa) == Peek(b, pa) {
        PeekAgree(kernel, a, b, pa);
      }
    }
  }

  lemma PokeAgree(kernel: set<nat>, a: State, b: State, pa: nat, v: Byte)
    requires Agree(kernel, a, b)
    ensures Agree(kernel, Poke(a, pa, v), Poke(b, pa, v))
  {}

  lemma PokeWordAgree(kernel: set<nat>, a: State, b: State, pa: Word, w: Word)
    requires Agree(kernel, a, b)
    ensures Agree(kernel, PokeWord(a, pa, w), PokeWord(b, pa, w))
  {
    hide Poke, Agree;
    PokeAgree(kernel, a, b, pa, w % 0x100);
    var a1, b1 := Poke(a, pa, w % 0x100), Poke(b, pa, w % 0x100);
    PokeAgree(kernel, a1, b1, Wrap(pa + 1), w / 0x100 % 0x100);
    var a2, b2 := Poke(a1, Wrap(pa + 1), w / 0x100 % 0x100), Poke(b1, Wrap(pa + 1), w / 0x100 % 0x100);
    PokeAgree(kernel, a2, b2, Wrap(pa + 2), w / 0x1_0000 % 0x100);
    var a3, b3 := Poke(a2, Wrap(pa + 2), w / 0x1_0000 % 0x100), Poke(b2, Wrap(pa + 2), w / 0x1_0000 % 0x100);
    PokeAgree(kernel, a3, b3, Wrap(pa + 3), w / 0x100_0000);
  }

  lemma StoreAgree(kernel: set<nat>, a: State, b: State, width: Width, va: Word, w: Word)
    requires Agree(kernel, a, b)
    ensures var x, y := StoreValue(a, width, va, w), StoreValue(b, width, va, w);
            x.exception == y.exception && Agree(kernel, x.st, y.st)
  {
    hide AddrTranslate, Poke, PokeWord, AddressFault, Agree;
    TranslateAgree(kernel, a, b, va, true);
    var x, y := AddrTranslate(a, va, true), AddrTranslate(b, va, true);
    PokeWordAgree(kernel, x.st, y.st, x.val, w);
    PokeAgree(kernel, x.st, y.st, x.val, w % 0x100);
    FaultAgree(kernel, a, b, va, EXC_ADES);
  }

  lemma ExecuteAgree(kernel: set<nat>, a: State, b: State, i: Instr)
    requires Agree(kernel, a, b) && InRange(i) && UserInstr(i)
    requires i.Load? ==> LoadsOutside(kernel, a, i.width, Wrap(a.regs[i.rs] + SignExtend(i.imm)))
    ensures Execute(a, i).exception == Execute(b, i).exception && Agree(kernel, Execute(a, i).st, Execute(b, i).st)
  {
    hide AluValue, ShiftValue, ImmValue, Taken, LoadValue, StoreValue, WriteTlb, ClearExl, SignExtend, SetCode,
      LoadsOutside;
    FaultAgree(kernel, a, b, 0, EXC_SYSCALL);
    FaultAgree(kernel, a, b, 0, EXC_RI);
    if i.Load? {
      LoadAgree(kernel, a, b, i.width, Wrap(a.regs[i.rs] + SignExtend(i.imm)));
    } else if i.Store? {
      StoreAgree(kernel, a, b, i.width, Wrap(a.regs[i.rs] + SignExtend(i.imm)), a.regs[i.rt]);
    }
  }

  /** The instruction at the program counter and the data it loads keep off CP0, k0, k1 and the kernel's bytes. */
  predicate KeepsOff(kernel: set<nat>, s: State)
    requires s.Shape()
  {
    && LoadsOutside(kernel, Begin(s), Full, s.pc)
    && (!Fetched(s).exception ==>
          var i := Decode(Fetched(s).val);
          && UserInstr(i)
          && (i.Load? ==> LoadsOutside(kernel, Begin(s), i.width, Wrap(Begin(s).regs[i.rs] + SignExtend(i.imm)))))
  }

  /** Fetching, decoding and executing such an instruction gives the same result whatever those hold. */
  lemma AttemptAgree(kernel: set<nat>, a: State, b: State)
    requires SameOutside(kernel, a, b) && a.pc == b.pc && a.tlb == b.tlb && KeepsOff(kernel, a)
    ensures Attempt(a).exception == Attempt(b).exception && Agree(kernel, Attempt(a).st, Attempt(b).st)
  {
    hide Execute, Decode, ReadWord, UserInstr, LoadsOutside;
    assert Agree(kernel, Begin(a), Begin(b));
    LoadAgree(kernel, Begin(a), Begin(b), Full, a.pc);
    FetchOnly(Begin(a), a.pc);
    hide Agree;
    if !Fetched(a).exception {
      ExecuteAgree(kernel, Fetched(a).st, Fetched(b).st, Decode(Fetched(a).val));
    }
  }

  /**
    Demand refill is transparent: after a miss and such a handler, which has changed the TLB and kernel memory, an
    instruction that keeps off the kernel's bytes does what it would have done had the TLB been the new one from the
    start.
    */
  lemma RefillIsTransparent(kernel: set<nat>, s: State, h: State)
    requires s.Shape() && !ExceptionLevel(s) && Attempt(s).exception
    requires AtEret(h) && SameOutside(kernel, h, Step(s)) && h.cp0[EPC] == Step(s).cp0[EPC]
    requires KeepsOff(kernel, s.(tlb := h.tlb))
    ensures var t, s1 := Step(h), s.(tlb := h.tlb);
            Attempt(t).exception == Attempt(s1).exception && Agree(kernel, Attempt(s1).st, Attempt(t).st)
  {
    hide Attempt, Step, AtEret, KeepsOff;
    ReturnReexecutes(kernel, s, h);
    AttemptAgree(kernel, s.(tlb := h.tlb), Step(h));
  }
}

/** Loads and stores undo each other. */
module MipsMemory {
  import opened PageWords
  import T = TlbModel
  import opened Mips
  import opened MipsRestart

  /** Where an access that is granted goes: the offset in the page is kept, and a write goes where a read goes. */
  lemma TranslateFacts(s: State, va: Word)
    requires s.Shape() && !AddrTranslate(s, va, true).exception
    ensures AddrTranslate(s, va, true).val % 0x1000 == va % 0x1000
    ensures AddrTranslate(s, va, false) == Read(AddrTranslate(s, va, true).val, s, false)
  {
    hide Mapped, Selects, TlbFault;
  }

  /** Translation does not look at memory. */
  lemma TranslateSame(s: State, r: State, va: Word)
    requires s.Shape() && r.Shape() && r.tlb == s.tlb && !AddrTranslate(s, va, false).exception
    ensures AddrTranslate(r, va, false) == Read(AddrTranslate(s, va, false).val, r, false)
  {
    hide Mapped, T.Translate, TlbFault;
  }

  lemma PokeWordFacts(s: State, pa: Word, w: Word)
    requires s.Shape() && pa % 4 == 0 && pa < RAM_SIZE
    ensures var r := PokeWord(s, pa, w);
            && r == s.(ram := r.ram) && (forall x: nat | x < RAM_SIZE && !(pa <= x < pa + 4) :: r.ram[x] == s.ram[x])
            && r.ram[pa] == w % 0x100 && r.ram[pa + 1] == w / 0x100 % 0x100
            && r.ram[pa + 2] == w / 0x1_0000 % 0x100 && r.ram[pa + 3] == w / 0x100_0000
    ensures pa + 3 < RAM_SIZE && Touched(pa, Full) == {pa, pa + 1, pa + 2, pa + 3}
  {
    hide Wrap;
    Aligned(pa);
    var b0, b1, b2, b3 := w % 0x100, w / 0x100 % 0x100, w / 0x1_0000 % 0x100, w / 0x100_0000;
    assert PokeWord(s, pa, w).ram == s.ram[pa := b0][pa + 1 := b1][pa + 2 := b2][pa + 3 := b3];
  }

  lemma Aligned(pa: Word)
    requires pa % 4 == 0 && pa < RAM_SIZE
    ensures pa + 3 < RAM_SIZE && Wrap(pa + 1) == pa + 1 && Wrap(pa + 2) == pa + 2 && Wrap(pa + 3) == pa + 3
  {}

  /** A word or byte stored in memory is loaded back, and no other byte has changed. */
  lemma StoreThenLoad(s: State, width: Width, va: Word, w: Word)
    requires s.Shape() && (width == Full || width == UByte) && !StoreValue(s, width, va, w).exception
    requires AddrTranslate(s, va, true).val < RAM_SIZE
    ensures var r, pa := StoreValue(s, width, va, w).st, AddrTranslate(s, va, true).val;
            && r == s.(ram := r.ram)
            && LoadValue(r, width, va) == Read(if width == Full then w else w % 0x100, r, false)
            && forall x: nat | x < RAM_SIZE && x !in Touched(pa, width) :: r.ram[x] == s.ram[x]
  {
    hide AddrTranslate, Touched, LoadValue, StoreValue;
    if width == Full {
      StoreThenLoadWord(s, va, w);
    } else {
      StoreThenLoadByte(s, va, w);
    }
  }

  lemma StoreThenLoadWord(s: State, va: Word, w: Word)
    requires s.Shape() && !StoreValue(s, Full, va, w).exception && AddrTranslate(s, va, true).val < RAM_SIZE
    ensures var r, pa := StoreValue(s, Full, va, w).st, AddrTranslate(s, va, true).val;
            && r == s.(ram := r.ram) && LoadValue(r, Full, va) == Read(w, r, false)
            && forall x: nat | x < RAM_SIZE && x !in Touched(pa, Full) :: r.ram[x] == s.ram[x]
  {
    hide AddrTranslate, PokeWord, Touched, LoadValue, AddressFault, Wrap;
    TranslateOnly(s, va, true);
    TranslateFacts(s, va);
    var pa := AddrTranslate(s, va, true).val;
    assert va % 4 == 0;
    assert pa % 4 == 0;
    PokeWordFacts(s, pa, w);
    var r := PokeWord(s, pa, w);
    TranslateSame(s, r, va);
    LoadWordFacts(r, va, pa, w);
  }

  lemma StoreThenLoadByte(s: State, va: Word, w: Word)
    requires s.Shape() && !StoreValue(s, UByte, va, w).exception && AddrTranslate(s, va, true).val < RAM_SIZE
    ensures var r, pa := StoreValue(s, UByte, va, w).st, AddrTranslate(s, va, true).val;
            && r == s.(ram := r.ram) && LoadValue(r, UByte, va) == Read(w % 0x100, r, false)
            && forall x: nat | x < RAM_SIZE && x !in Touched(pa, UByte) :: r.ram[x] == s.ram[x]
  {
    hide AddrTranslate, AddressFault, Wrap;
    TranslateOnly(s, va, true);
    TranslateFacts(s, va);
    TranslateSame(s, StoreValue(s, UByte, va, w).st, va);
  }

  lemma LoadWordFacts(r: State, va: Word, pa: Word, w: Word)
    requires r.Shape() && va % 4 == 0 && pa + 3 < RAM_SIZE && AddrTranslate(r, va, false) == Read(pa, r, false)
    requires r.ram[pa] == w % 0x100 && r.ram[pa + 1] == w / 0x100 % 0x100
    requires r.ram[pa + 2] == w / 0x1_0000 % 0x100 && r.ram[pa + 3] == w / 0x100_0000
    ensures LoadValue(r, Full, va) == Read(w, r, false)
  {
    hide AddrTranslate;
    WordBytes(w);
  }

  lemma WordBytes(w: Word)
    ensures w % 0x100 + w / 0x100 % 0x100 * 0x100 + w / 0x1_0000 % 0x100 * 0x1_0000 + w / 0x100_0000 * 0x100_0000 == w
  {
    assert w / 0x100 / 0x100 == w / 0x1_0000 && w / 0x1_0000 / 0x100 == w / 0x100_0000;
  }

  /** In kseg1, where the devices are, an address stands for itself less its segment, whatever the TLB holds. */
  lemma Unmapped(s: State, pa: nat, write: bool)
    requires s.Shape() && pa < 0x2000_0000
    ensures AddrTranslate(s, 0xa000_0000 + pa, write) == Read(pa, s, false)
    ensures AddrTranslate(s, 0x8000_0000 + pa, write) == Read(pa, s, false)
  {}

  /** A byte stored at the serial port is sent, the port is always ready, and stores to ROM and flash do nothing. */
  lemma DeviceAccess(s: State, w: Word, pa: nat)
    requires s.Shape() && pa < 0x2000_0000
    ensures StoreValue(s, UByte, 0xbfd0_03f8, w) == Outcome(s.(out := s.out + [w % 0x100]), false)
    ensures LoadValue(s, UByte, 0xbfd0_03fc) == Read(1, s, false)
    ensures IsDevice(pa) ==> StoreValue(s, UByte, 0xa000_0000 + pa, w) == Outcome(s, false)
    ensures IsDevice(pa) && pa in s.dev ==> LoadValue(s, UByte, 0xa000_0000 + pa) == Read(s.dev[pa], s, false)
  {
    hide AddrTranslate;
    Unmapped(s, SERIAL_PORT, true);
    Unmapped(s, SERIAL_STATUS, false);
    Unmapped(s, pa, true);
    Unmapped(s, pa, false);
  }
}
