/** The kernel's TLB session and the emulator together: what becomes of an access that misses. */
module DemandPaging {
  import opened PageWords
  import T = TlbModel
  import S = TlbSession
  import M = Mips
  import R = MipsRestart
  import F = MipsFaults

  // --- the page tables as they lie in memory ---

  /** The word at a physical address in memory */
  function RamWord(m: M.State, pa: nat): Word
    requires m.Shape() && pa + 3 < M.RAM_SIZE
  {
    var a: int, b: int, c: int, d: int := m.ram[pa], m.ram[pa + 1], m.ram[pa + 2], m.ram[pa + 3];
    a + b * 0x100 + c * 0x1_0000 + d * 0x100_0000
  }

  /** The directory entry for a page, in the directory at dir */
  function Pde(m: M.State, dir: nat, page: PageNo): Word
    requires m.Shape() && dir + 0x1000 <= M.RAM_SIZE
  {
    RamWord(m, dir + page / 0x400 * 4)
  }

  /** Where get_pte finds the entry of a page: the frame the directory entry names, and the page's place in it */
  function PteAddress(m: M.State, dir: nat, page: PageNo): nat
    requires m.Shape() && dir + 0x1000 <= M.RAM_SIZE
  {
    Pde(m, dir, page) / 0x1000 * 0x1000 + page % 0x400 * 4
  }

  /** The tables in memory behind the directory at dir are pt. */
  ghost predicate Holds(m: M.State, dir: nat, pt: T.PageTable) {
    && m.Shape() && dir + 0x1000 <= M.RAM_SIZE
    && forall page: PageNo ::
         && (pt.HasTable(page) <==> Pde(m, dir, page) % 2 == 1)
         && (pt.HasTable(page) ==>
               PteAddress(m, dir, page) + 3 < M.RAM_SIZE && pt.Entry(page) == RamWord(m, PteAddress(m, dir, page)))
  }

  /** The page-table walk on memory itself */
  function RamWalk(m: M.State, dir: nat, va: Word): S.Mapping
    requires m.Shape() && dir + 0x1000 <= M.RAM_SIZE
  {
    if Pde(m, dir, Ppn(va)) % 2 == 0 || PteAddress(m, dir, Ppn(va)) + 3 >= M.RAM_SIZE then S.Absent
    else
      var pte := RamWord(m, PteAddress(m, dir, Ppn(va)));
      if Present(pte) then S.MapsTo(Target(pte, va), Writable(pte)) else S.Absent
  }

  lemma HoldsWalk(m: M.State, dir: nat, pt: T.PageTable, va: Word)
    requires Holds(m, dir, pt)
    ensures RamWalk(m, dir, va) == S.Walk(pt, va)
  {
    hide Ppn, Pde, PteAddress, RamWord, Present, Writable, Target, T.PageTable.HasTable, T.PageTable.Entry;
    var page := Ppn(va);
    assert pt.HasTable(page) <==> Pde(m, dir, page) % 2 == 1;
  }

  // --- a miss ---

  /**
    The machine m runs with the TLB of the session k, whose page tables lie in its memory, and the instruction at the
    program counter makes an access that misses: it is refused, and not for writing to a page that may only be read.
    */
  ghost predicate Misses(m: M.State, k: T.State, dir: nat): (r: bool)
    ensures r ==> m.Shape() && T.Coherent(k)
  {
    && m.Shape() && !M.ExceptionLevel(m) && F.WhyRefused(m).Refused? && F.WhyRefused(m).code != M.EXC_MOD
    && T.Coherent(k) && m.tlb == k.tlb && Holds(m, dir, k.pt)
  }

  /** The access that misses, and what tlb_miss_handler reads in BadVAddr and Cause about it */
  lemma MissFacts(m: M.State, k: T.State, dir: nat)
    requires Misses(m, k, dir)
    ensures var va, write := F.WhyRefused(m).va, F.WhyRefused(m).code == M.EXC_TLBS;
            && M.Attempt(m).exception && Mapped(va)
            && (T.Translate(k.tlb, va, write).Refill? || T.Translate(k.tlb, va, write).Invalid?)
            && M.Step(m).cp0[M.BADVADDR] == va && F.Code(M.Step(m)) == if write then M.EXC_TLBS else M.EXC_TLBL
  {
    hide M.Attempt, M.Step, T.Translate, T.Coherent, Mapped, M.Decode, F.WordAtPc, F.Code;
    F.FaultIsReported(m);
  }

  /**
    The handler h has run tlb_miss_handler for the address in BadVAddr, which has left its page tables in memory and its
    entries in the TLB. It has written none but the kernel's bytes, given the registers back except k0 and k1, and is
    about to return.
    */
  ghost predicate Handled(kernel: set<nat>, m: M.State, k: T.State, dir: nat, h: M.State, fault: S.Fault)
    requires m.Shape() && T.Coherent(k)
  {
    var page := Ppn(M.Step(m).cp0[M.BADVADDR]);
    && S.FaultOk(fault) && S.Returns(k, page, fault) && !S.Unbacked(k, page, fault)
    && R.AtEret(h) && R.SameOutside(kernel, h, M.Step(m)) && h.cp0[M.EPC] == M.Step(m).cp0[M.EPC]
    && h.tlb == S.HandleMiss(k, page, fault).tlb && Holds(h, dir, S.HandleMiss(k, page, fault).pt)
  }

  /** The hypotheses make the entries that the handler rewrites kernel memory: of each, some byte is the kernel's. */
  lemma RewrittenIsKernel(kernel: set<nat>, m: M.State, h: M.State, dir: nat, pt: T.PageTable, pt2: T.PageTable,
                          page: PageNo)
    requires Holds(m, dir, pt) && Holds(h, dir, pt2) && R.SameOutside(kernel, h, m)
    requires pt.HasTable(page) && pt2.HasTable(page) && Pde(h, dir, page) == Pde(m, dir, page)
    requires pt2.Entry(page) != pt.Entry(page)
    ensures var a := PteAddress(m, dir, page); a in kernel || a + 1 in kernel || a + 2 in kernel || a + 3 in kernel
  {
    var a := PteAddress(m, dir, page);
    assert pt.Entry(page) == RamWord(m, a) && pt2.Entry(page) == RamWord(h, a);
  }

  /** Where an address goes after the miss on `page`: as before, or to the frame granted if it is on that page */
  function Remapped(before: S.Mapping, x: Word, page: PageNo, fault: S.Fault): S.Mapping
    requires fault.Granted? ==> S.IsPerm(fault.perm)
  {
    if fault.Granted? && Ppn(x) == page && before.Absent?
    then S.MapsTo(fault.frame * 0x1000 + x % 0x1000, Writable(fault.perm)) else before
  }

  /**
    After the return the machine is back at the instruction, in the state in which it started but for kernel memory, and
    the access that missed is translated as the tables now in memory say, or refused as a write to a read-only page.
    These tables map every address as they did before the miss, except that a page that was absent is now where the page
    fault put it.
    */
  lemma RetryTranslates(kernel: set<nat>, m: M.State, k: T.State, dir: nat, h: M.State, fault: S.Fault)
    requires Misses(m, k, dir) && Handled(kernel, m, k, dir, h, fault)
    ensures dir + 0x1000 <= M.RAM_SIZE
    ensures var t := M.Step(h); var va, write := F.WhyRefused(m).va, F.WhyRefused(m).code == M.EXC_TLBS;
            && t.pc == m.pc && R.SameOutside(kernel, t, m) && t.ram == h.ram && !M.ExceptionLevel(t)
            && RamWalk(t, dir, va).MapsTo?
            && M.AddrTranslate(t, va, write).exception == (write && !RamWalk(t, dir, va).writable)
            && (!write || RamWalk(t, dir, va).writable ==>
                  M.AddrTranslate(t, va, write) == M.Read(RamWalk(t, dir, va).pa, t, false))
    ensures forall x: Word ::
              RamWalk(M.Step(h), dir, x) == Remapped(RamWalk(m, dir, x), x, Ppn(F.WhyRefused(m).va), fault)
  {
    hide M.Step, M.Attempt, R.AtEret, R.SameOutside, S.HandleMiss, S.Walk, T.Translate, T.Coherent, Mapped, S.Returns,
      S.Unbacked, M.TlbFault, RamWord, F.WhyRefused, F.Code, RamWalk;
    MissFacts(m, k, dir);
    var va, write := F.WhyRefused(m).va, F.WhyRefused(m).code == M.EXC_TLBS;
    var pt, t := S.HandleMiss(k, Ppn(va), fault).pt, M.Step(h);
    S.RetryHits(k, va, write, fault);
    R.ReturnReexecutes(kernel, m, h);
    HoldsSame(h, t, dir, pt);
    hide Holds;
    HoldsWalk(t, dir, pt, va);
    forall x: Word ensures RamWalk(t, dir, x) == Remapped(RamWalk(m, dir, x), x, Ppn(va), fault) {
      HoldsWalk(t, dir, pt, x);
      HoldsWalk(m, dir, k.pt, x);
      S.HandleMissWalk(k, Ppn(va), fault, x);
    }
  }

  lemma HoldsSame(h: M.State, t: M.State, dir: nat, pt: T.PageTable)
    requires Holds(h, dir, pt) && t.Shape() && t.ram == h.ram
    ensures Holds(t, dir, pt)
  {
    forall page: PageNo
      ensures Pde(t, dir, page) == Pde(h, dir, page) && PteAddress(t, dir, page) == PteAddress(h, dir, page)
    {}
  }

  // --- a load that missed ---

  /** The address a load goes to; register zero reads as zero */
  function LoadAddress(m: M.State, i: M.Instr): Word
    requires m.Shape() && i.Load? && M.InRange(i)
  {
    M.Wrap(F.Operand(m, i.rs) + M.SignExtend(i.imm))
  }

  /**
    A load that missed completes: if its code can still be fetched, it puts into rt what is at the place the tables in
    memory name, and that is what was there before the miss unless it is the kernel's.
    */
  lemma LoadCompletes(kernel: set<nat>, m: M.State, k: T.State, dir: nat, h: M.State, i: M.Instr, fault: S.Fault)
    requires Misses(m, k, dir) && Handled(kernel, m, k, dir, h, fault)
    requires i.Load? && M.InRange(i) && R.UserInstr(i)
    requires F.AccessWhy(m.tlb, m.pc, M.Full, false).Fine? && M.Decode(F.WordAtPc(m)) == i
    requires var t := M.Step(h); !R.Fetched(t).exception && M.Decode(R.Fetched(t).val) == i
    ensures var t := M.Step(h);
            && dir + 0x1000 <= M.RAM_SIZE && F.WhyRefused(m).va == LoadAddress(m, i)
            && LoadDone(kernel, m, t, M.Attempt(t), i, RamWalk(t, dir, LoadAddress(m, i)))
  {
    hide M.Step, S.HandleMiss, T.Translate, T.Coherent, Mapped, S.Returns, S.Unbacked, M.Decode, R.Fetched,
      M.AddrTranslate, M.Clock, M.Attempt, R.SameOutside, LoadDone, RamWalk, M.Wrap, M.SignExtend, Holds, F.WordAtPc;
    var va, t := LoadAddress(m, i), M.Step(h);
    RetryTranslates(kernel, m, k, dir, h, fault);
    LoadRetried(kernel, m, t, i, va, RamWalk(t, dir, va));
  }

  /** The load has put the value at the mapped address into rt, moved on, and changed nothing else the program sees. */
  ghost predicate LoadDone(kernel: set<nat>, m: M.State, t: M.State, a: M.Outcome, i: M.Instr, at: S.Mapping)
    requires m.Shape() && t.Shape() && i.Load?
  {
    && a.st.Shape() && at.MapsTo? && !a.exception && a.st.pc == M.Wrap(m.pc + 4)
    && a.st.regs[i.rt] == Loaded(t, i.width, at.pa)
    && (R.Touched(at.pa, i.width) !! kernel ==> a.st.regs[i.rt] == Loaded(m, i.width, at.pa))
    && (forall r | 1 <= r < 32 && r != i.rt && r != R.K0 && r != R.K1 :: a.st.regs[r] == m.regs[r])
    && a.st.hi == m.hi && a.st.lo == m.lo && a.st.ram == t.ram && a.st.out == m.out
  }

  lemma LoadRetried(kernel: set<nat>, m: M.State, t: M.State, i: M.Instr, va: Word, at: S.Mapping)
    requires R.SameOutside(kernel, t, m) && t.pc == m.pc && i.Load? && M.InRange(i) && R.UserInstr(i) && at.MapsTo?
    requires va == LoadAddress(m, i) && M.AddrTranslate(t, va, false) == M.Read(at.pa, t, false)
    requires (i.width == M.Full ==> va % 4 == 0) && (i.width == M.UHalf ==> va % 2 == 0)
    requires !R.Fetched(t).exception && M.Decode(R.Fetched(t).val) == i
    ensures LoadDone(kernel, m, t, M.Attempt(t), i, at)
  {
    hide M.Decode, M.ReadWord, M.AddrTranslate, M.Wrap, M.SignExtend, M.LoadValue, Loaded, R.Touched;
    R.FetchOnly(M.Begin(t), t.pc);
    BeginTranslates(t, va, at.pa);
    LoadReads(t, M.Begin(t), i.width, va, at.pa);
    if R.Touched(at.pa, i.width) !! kernel {
      LoadedSame(kernel, t, m, i.width, at.pa);
    }
  }

  /** The value a load of that width makes of the bytes from physical address pa on */
  function Loaded(m: M.State, width: M.Width, pa: Word): Word
    requires m.Shape()
  {
    match width
    case SByte => if M.Peek(m, pa) < 0x80 then M.Peek(m, pa) else M.Peek(m, pa) + 0xffff_ff00
    case UByte => M.Peek(m, pa)
    case UHalf => M.Peek(m, pa) + M.Peek(m, M.Wrap(pa + 1)) * 0x100
    case Full =>
      var low := M.Peek(m, pa) + M.Peek(m, M.Wrap(pa + 1)) * 0x100;
      low + M.Peek(m, M.Wrap(pa + 2)) * 0x1_0000 + M.Peek(m, M.Wrap(pa + 3)) * 0x100_0000
  }

  lemma LoadedSame(kernel: set<nat>, t: M.State, m: M.State, width: M.Width, pa: Word)
    requires R.SameOutside(kernel, t, m) && R.Touched(pa, width) !! kernel
    ensures Loaded(t, width, pa) == Loaded(m, width, pa)
  {
    hide M.Wrap;
    forall x | x in R.Touched(pa, width) ensures M.Peek(t, x) == M.Peek(m, x) {}
  }

  lemma BeginTranslates(t: M.State, va: Word, pa: Word)
    requires t.Shape() && M.AddrTranslate(t, va, false) == M.Read(pa, t, false)
    ensures M.AddrTranslate(M.Begin(t), va, false) == M.Read(pa, M.Begin(t), false)
  {
    hide T.Translate, Mapped, M.TlbFault;
  }

  lemma LoadReads(m: M.State, b: M.State, width: M.Width, va: Word, pa: Word)
    requires m.Shape() && b.Shape() && b.ram == m.ram && b.dev == m.dev
    requires M.AddrTranslate(b, va, false) == M.Read(pa, b, false)
    requires (width == M.Full ==> va % 4 == 0) && (width == M.UHalf ==> va % 2 == 0)
    ensures M.LoadValue(b, width, va) == M.Read(Loaded(m, width, pa), b, false)
  {
    hide M.AddrTranslate, M.Wrap;
  }
}
