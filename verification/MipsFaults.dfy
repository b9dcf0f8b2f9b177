/** What the handler finds in CP0: why the instruction was refused, and at which address. */
module MipsFaults {
  import opened PageWords
  import T = TlbModel
  import opened Mips
  import R = MipsRestart

  /** Why an instruction cannot be executed: an access the TLB refuses, an address out of line, or what it is itself */
  datatype Why = Fine | Refused(va: Word, code: nat) | OutOfLine(va: Word, code: nat) | Trapped(code: nat)

  /** The access the TLB is asked for, the first slot that selects its address, and that slot's half for the page */
  function AccessWhy(tlb: T.Tlb, va: Word, width: Width, write: bool): Why
    requires tlb.Shape()
  {
    if (width == Full && va % 4 != 0) || (width == UHalf && va % 2 != 0) then OutOfLine(va, if write then 5 else 4)
    else if !Mapped(va) then Fine
    else match T.Translate(tlb, va, write)
      case Hit(_) => Fine
      case Modified => Refused(va, 1)
      case Refill => Refused(va, if write then 3 else 2)
      case Invalid => Refused(va, if write then 3 else 2)
  }

  /** The general registers as an instruction sees them: register zero is zero */
  function Operand(s: State, r: Reg): Word
    requires s.Shape()
  {
    if r == 0 then 0 else s.regs[r]
  }

  /** The word the program counter is at, where its address can be translated */
  function WordAtPc(s: State): Word
    requires s.Shape()
  {
    R.Fetched(s).val
  }

  /** Why an instruction that has been fetched cannot be executed */
  function InstrWhy(s: State, i: Instr): Why
    requires s.Shape() && InRange(i)
  {
    match i
    case Load(width, _, rs, imm) => AccessWhy(s.tlb, Wrap(Operand(s, rs) + SignExtend(imm)), width, false)
    case Store(width, _, rs, imm) => AccessWhy(s.tlb, Wrap(Operand(s, rs) + SignExtend(imm)), width, true)
    case Syscall => Trapped(8)
    case Reserved => Trapped(10)
    case _ => Fine
  }

  /** Fetch first, then the instruction */
  function WhyRefused(s: State): Why
    requires s.Shape()
  {
    var fetch := AccessWhy(s.tlb, s.pc, Full, false);
    if !fetch.Fine? then fetch else InstrWhy(s, Decode(WordAtPc(s)))
  }

  /** Bits 2 to 6 of Cause, which trap_dispatch switches on */
  function Code(s: State): nat
    requires s.Shape()
  {
    s.cp0[CAUSE] / 4 % 32
  }

  /** CP0 says why: the code, the address, and for the TLB the page pair in EntryHi and Context. */
  predicate Reports(before: State, after: State, why: Why)
    requires before.Shape() && after.Shape()
  {
    match why
    case Fine => true
    case Trapped(code) => Code(after) == code && after.cp0[BADVADDR] == before.cp0[BADVADDR]
    case OutOfLine(va, code) => Code(after) == code && after.cp0[BADVADDR] == va
    case Refused(va, code) =>
      && Code(after) == code && after.cp0[BADVADDR] == va
      && after.cp0[ENTRYHI] / 0x2000 == va / 0x2000 && after.cp0[ENTRYHI] % 0x2000 == before.cp0[ENTRYHI] % 0x2000
      && after.cp0[CONTEXT] / 0x10 % 0x8_0000 == va / 0x2000
  }

  /** Everything of Cause but the code is as it was, and so are all registers but those that report the fault. */
  predicate KeepsRest(before: State, after: State)
    requires before.Shape() && after.Shape()
  {
    && after.cp0[CAUSE] / 0x80 == before.cp0[CAUSE] / 0x80 && after.cp0[CAUSE] % 4 == before.cp0[CAUSE] % 4
    && forall r: Reg |
         && r != CAUSE && r != BADVADDR && r != ENTRYHI && r != CONTEXT
         && r != COUNT && r != EPC && r != SR ::
         after.cp0[r] == before.cp0[r]
  }

  lemma CodeFacts(s: State, code: nat)
    requires s.Shape() && code < 32
    ensures Code(SetCode(s, code)) == code
    ensures SetCode(s, code).cp0[CAUSE] / 0x80 == s.cp0[CAUSE] / 0x80
    ensures SetCode(s, code).cp0[CAUSE] % 4 == s.cp0[CAUSE] % 4
  {
    var x := s.cp0[CAUSE];
    var y := x / 0x80 * 0x80 + code * 4 + x % 4;
    assert y / 4 == x / 0x80 * 0x20 + code;
  }

  lemma FaultWords(s: State, va: Word, code: nat)
    requires s.Shape() && code < 32
    ensures Reports(s, TlbFault(s, va, code), Refused(va, code)) && KeepsRest(s, TlbFault(s, va, code))
    ensures Reports(s, AddressFault(s, va, code), OutOfLine(va, code)) && KeepsRest(s, AddressFault(s, va, code))
    ensures Reports(s, SetCode(s, code), Trapped(code)) && KeepsRest(s, SetCode(s, code))
  {
    hide SetCode, Code;
    CodeFacts(s, code);
    CodeOnly(s, code);
    SameCode(SetCode(s, code), TlbFault(s, va, code));
    SameCode(SetCode(s, code), AddressFault(s, va, code));
    ContextWord(s.cp0[CONTEXT], va);
    EntryHiWord(s.cp0[ENTRYHI], va);
  }

  lemma CodeOnly(s: State, code: nat)
    requires s.Shape() && code < 32
    ensures SetCode(s, code).cp0 == s.cp0[CAUSE := SetCode(s, code).cp0[CAUSE]]
  {}

  lemma SameCode(s: State, t: State)
    requires s.Shape() && t.Shape() && t.cp0[CAUSE] == s.cp0[CAUSE]
    ensures Code(t) == Code(s)
  {}

  lemma ContextWord(context: Word, va: Word)
    ensures var w := context / 0x80_0000 * 0x80_0000 + va / 0x2000 * 0x10 + context % 0x10;
            w / 0x10 % 0x8_0000 == va / 0x2000
  {
    var w := context / 0x80_0000 * 0x80_0000 + va / 0x2000 * 0x10 + context % 0x10;
    assert w / 0x10 == context / 0x80_0000 * 0x8_0000 + va / 0x2000;
  }

  lemma EntryHiWord(hi: Word, va: Word)
    ensures var w := va / 0x2000 * 0x2000 + hi % 0x2000; w / 0x2000 == va / 0x2000 && w % 0x2000 == hi % 0x2000
  {}

  /** An access does what it is asked to, or reports why not. */
  lemma AccessReports(s: State, va: Word, width: Width)
    requires s.Shape()
    ensures var r := LoadValue(s, width, va); var why := AccessWhy(s.tlb, va, width, false);
            (r.exception <==> !why.Fine?) && Reports(s, r.st, why) && KeepsRest(s, r.st)
  {
    hide T.Translate, Mapped, TlbFault, AddressFault, Peek, Reports, KeepsRest, Wrap;
    FaultWords(s, va, EXC_TLBL);
    FaultWords(s, va, EXC_ADEL);
    FineReports(s);
    ReadNeverModified(s.tlb, va);
  }

  lemma StoreReports(s: State, va: Word, width: Width, w: Word)
    requires s.Shape() && width != UHalf
    ensures var r := StoreValue(s, width, va, w); var why := AccessWhy(s.tlb, va, width, true);
            (r.exception <==> !why.Fine?) && Reports(s, r.st, why) && (r.exception ==> KeepsRest(s, r.st))
  {
    hide T.Translate, Mapped, TlbFault, AddressFault, Poke, PokeWord, Reports, KeepsRest, Wrap;
    FaultWords(s, va, EXC_MOD);
    FaultWords(s, va, EXC_TLBS);
    FaultWords(s, va, EXC_ADES);
    forall t: State | t.Shape() ensures Reports(s, t, Fine) {
      FineAfter(s, t);
    }
  }

  lemma FineReports(s: State)
    requires s.Shape()
    ensures Reports(s, s, Fine) && KeepsRest(s, s)
  {}

  lemma FineAfter(s: State, t: State)
    requires s.Shape() && t.Shape()
    ensures Reports(s, t, Fine)
  {}

  lemma ReadNeverModified(tlb: T.Tlb, va: Word)
    requires tlb.Shape()
    ensures !T.Translate(tlb, va, false).Modified?
  {}

  /** An instruction that cannot be executed reports why, in the state it was started in. */
  lemma AttemptReports(s: State)
    requires s.Shape()
    ensures Attempt(s).exception <==> !WhyRefused(s).Fine?
    ensures Attempt(s).exception ==>
              Reports(Begin(s), Attempt(s).st, WhyRefused(s)) && KeepsRest(Begin(s), Attempt(s).st)
  {
    hide Execute, Decode, ReadWord, Reports, KeepsRest, AccessWhy;
    AccessReports(Begin(s), s.pc, Full);
    R.FetchOnly(Begin(s), s.pc);
    if !R.Fetched(s).exception {
      ExecuteReports(Begin(s), s, Decode(WordAtPc(s)));
    }
  }

  lemma ExecuteReports(b: State, s: State, i: Instr)
    requires s.Shape() && b == Begin(s) && InRange(i)
    ensures Execute(b, i).exception <==> !InstrWhy(s, i).Fine?
    ensures Execute(b, i).exception ==>
              Reports(b, Execute(b, i).st, InstrWhy(s, i)) && KeepsRest(b, Execute(b, i).st)
  {
    hide AluValue, ShiftValue, ImmValue, Taken, LoadValue, StoreValue, WriteTlb, ClearExl, SignExtend, SetCode, Reports,
      KeepsRest, AccessWhy, Wrap;
    if i.Load? {
      AccessReports(b, Wrap(b.regs[i.rs] + SignExtend(i.imm)), i.width);
    } else if i.Store? {
      StoreReports(b, Wrap(b.regs[i.rs] + SignExtend(i.imm)), i.width, b.regs[i.rt]);
    } else if i.Syscall? {
      FaultWords(b, 0, EXC_SYSCALL);
    } else if i.Reserved? {
      FaultWords(b, 0, EXC_RI);
    }
  }

  /**
    A step that faults leaves in CP0 what the handler goes by: the code of its cause, and where an access was refused
    the address and, for the TLB, its page pair. It faults in no other case, and the rest of CP0 is as it was but for
    Count, EPC and the exception level.
    */
  lemma FaultIsReported(s: State)
    requires s.Shape()
    ensures Attempt(s).exception <==> !WhyRefused(s).Fine?
    ensures Attempt(s).exception ==> Reports(s, Step(s), WhyRefused(s)) && KeepsRest(s, Step(s))
    ensures Attempt(s).exception ==> var count: int := s.cp0[COUNT]; Step(s).cp0[COUNT] == Wrap(count + 1)
  {
    hide Attempt, WhyRefused;
    AttemptReports(s);
    AttemptCount(s);
    if Attempt(s).exception {
      EnterKeeps(Attempt(s).st);
    }
  }

  lemma EnterKeeps(a: State)
    requires a.Shape()
    ensures forall r: Reg | r != EPC && r != SR :: Enter(a).cp0[r] == a.cp0[r]
  {}

  lemma AttemptCount(s: State)
    requires s.Shape()
    ensures Attempt(s).exception ==> Attempt(s).st.cp0[COUNT] == Begin(s).cp0[COUNT]
  {
    hide Execute, Decode, ReadWord, AccessWhy;
    FetchCount(Begin(s), s.pc, Full);
    R.FetchOnly(Begin(s), s.pc);
    if !R.Fetched(s).exception {
      var b, i := Begin(s), Decode(WordAtPc(s));
      ExecuteCount(b, i);
    }
  }

  lemma FetchCount(s: State, va: Word, width: Width)
    requires s.Shape()
    ensures LoadValue(s, width, va).st.cp0[COUNT] == s.cp0[COUNT]
  {
    hide T.Translate, Mapped, Peek, Wrap;
  }

  lemma StoreCount(s: State, va: Word, width: Width, w: Word)
    requires s.Shape()
    ensures StoreValue(s, width, va, w).exception ==> StoreValue(s, width, va, w).st.cp0[COUNT] == s.cp0[COUNT]
  {
    hide T.Translate, Mapped, Poke, PokeWord, Wrap;
  }

  lemma ExecuteCount(b: State, i: Instr)
    requires b.Shape() && InRange(i)
    ensures Execute(b, i).exception ==> Execute(b, i).st.cp0[COUNT] == b.cp0[COUNT]
  {
    hide AluValue, ShiftValue, ImmValue, Taken, LoadValue, StoreValue, WriteTlb, ClearExl, SignExtend, Wrap;
    if i.Load? {
      FetchCount(b, Wrap(b.regs[i.rs] + SignExtend(i.imm)), i.width);
    } else if i.Store? {
      StoreCount(b, Wrap(b.regs[i.rs] + SignExtend(i.imm)), i.width, b.regs[i.rt]);
    }
  }

  /** A bit of the status register: 0 is interrupts on, 1 exception level, 2 error level, 15 the clock's own mask */
  predicate StatusBit(s: State, bit: nat)
    requires s.Shape() && bit < 32
  {
    s.cp0[SR] / Power(bit) % 2 == 1
  }

  /**
    After an instruction that has not faulted the clock interrupts if and only if Count has come up to Compare and
    nothing masks it. Cause then says interrupt, from the clock, and Count starts again whenever it has come up.
    */
  lemma ClockInterrupts(s: State)
    requires s.Shape() && !Attempt(s).exception
    ensures var d, r := Attempt(s).st, Step(s); var due := d.cp0[COUNT] >= d.cp0[COMPARE];
            var open := StatusBit(d, 0) && !StatusBit(d, 1) && !StatusBit(d, 2) && StatusBit(d, 15);
            && (Clock(d).exception <==> due && open) && r.cp0[COUNT] == (if due then 0 else d.cp0[COUNT])
            && (due && open ==> Code(r) == 0 && r.cp0[CAUSE] / 0x8000 % 2 == 1 && r.pc == d.cp0[EBASE])
            && (!(due && open) ==> r == d.(cp0 := r.cp0) && r.cp0 == d.cp0[COUNT := r.cp0[COUNT]])
  {
    hide Attempt, Code, SetCode;
    var d := Attempt(s).st;
    StatusBits(d.cp0[SR]);
    var t := d.SetCp0(COUNT, 0);
    Pending(t);
    EnterKeeps(SetCode(SetClockPending(t), EXC_INT));
    CodeOnly(SetClockPending(t), EXC_INT);
    SameCode(SetCode(SetClockPending(t), EXC_INT), Enter(SetCode(SetClockPending(t), EXC_INT)));
  }

  lemma StatusBits(w: Word)
    ensures w % 8 == 1 <==> w / Power(0) % 2 == 1 && w / Power(1) % 2 == 0 && w / Power(2) % 2 == 0
    ensures Power(15) == 0x8000
  {
    assert Power(1) == 2 && Power(2) == 4 && Power(8) == 0x100;
  }

  lemma Pending(t: State)
    requires t.Shape()
    ensures var r := SetCode(SetClockPending(t), EXC_INT); Code(r) == 0 && r.cp0[CAUSE] / 0x8000 % 2 == 1
    ensures SetClockPending(t).cp0[EBASE] == t.cp0[EBASE] && SetClockPending(t).cp0[COUNT] == t.cp0[COUNT]
  {
    CodeFacts(SetClockPending(t), EXC_INT);
    var x := SetClockPending(t).cp0[CAUSE];
    PendingBit(t.cp0[CAUSE]);
    assert x / 0x8000 % 2 == 1;
    HighPart(x, SetCode(SetClockPending(t), EXC_INT).cp0[CAUSE]);
  }

  lemma PendingBit(w: Word)
    ensures w / 0x8000 % 2 == 0 ==> (w + 0x8000) / 0x8000 % 2 == 1
  {
    assert (w + 0x8000) / 0x8000 == w / 0x8000 + 1;
  }

  lemma HighPart(x: Word, y: Word)
    requires x / 0x80 == y / 0x80
    ensures x / 0x8000 == y / 0x8000
  {
    assert x / 0x8000 == x / 0x80 / 0x100 && y / 0x8000 == y / 0x80 / 0x100;
  }
}
