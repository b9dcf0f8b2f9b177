/**
  A session on one page directory: loads and stores through the emulator's TLB, the miss handler behind them,
  and the page-table edits of kern/mm/pmm.c that call tlb_invalidate.
  */
module TlbSession {
  import opened PageWords
  import opened TlbModel

  // --- what a translation means, read off the page table alone ---

  datatype Mapping = Absent | MapsTo(pa: Word, writable: bool)

  function Walk(pt: PageTable, va: Word): Mapping {
    var pte := pt.Entry(Ppn(va));
    if pt.HasTable(Ppn(va)) && Present(pte) then MapsTo(Target(pte, va), Writable(pte)) else Absent
  }

  predicate IsCached(pt: PageTable, page: PageNo) { pt.HasTable(page) && Cached(pt.Entry(page)) }

  ghost predicate NoneCached(pt: PageTable) {
    forall page: PageNo :: !IsCached(pt, page)
  }

  /** Every cached entry is present: the TLB grants nothing the page table does not. */
  ghost predicate CachedArePresent(pt: PageTable) {
    forall page: PageNo :: IsCached(pt, page) ==> Present(pt.Entry(page))
  }

  /** load_pgdir never clears TLB_P, so the state it leaves is coherent exactly when no entry carried the bit. */
  lemma LoadPgdirCoherentIff(s: State, pt: PageTable)
    requires s.Shape()
    ensures Coherent(LoadPgdir(s, pt)) <==> NoneCached(pt)
  {
    hide Pair, Half, EntryHi, PageOfHi, Cached, TlbIdx, EntryLo, Mapped, Pdx, Aligned;
    var r := LoadPgdir(s, pt);
    assert r.empty[..r.n] == r.empty;
    forall i: nat | i < TLBN ensures IsFree(r, i) {
      assert r.empty[i] == i;
    }
    if NoneCached(pt) {
      forall p: PageNo ensures PageOk(r, p) && !Holds(r, p, TLBN) {
        assert !IsCached(pt, p);
      }
    }
    if page: PageNo :| IsCached(pt, page) {
      assert !PageOk(r, page);
    }
  }

  /**
    A page table whose one entry still carries TLB_P from an earlier session breaks coherence at the next load_pgdir.
    */
  lemma LeftoverBitBreaksCoherence(s: State)
    requires s.Shape()
    ensures var pt := PageTable({0}, map[1 := 0x00001081]);
      !Coherent(LoadPgdir(s, pt))
  {
    var pt := PageTable({0}, map[1 := 0x00001081]);
    var page: PageNo := 1;
    assert IsCached(pt, page);
    LoadPgdirCoherentIff(s, pt);
  }

  // --- the emulator reads what the kernel wrote ---

  /**
    In a coherent state the emulator's lookup is decided by the page-table entry alone: it misses exactly on pages
    without TLB_P, and on the others it yields the entry's own frame, refusing a write exactly when PTE_W is clear.
    */
  lemma TranslateAgrees(s: State, va: Word, write: bool)
    requires Coherent(s) && Mapped(va)
    ensures var pte := s.pt.Entry(Ppn(va)); var look := Translate(s.tlb, va, write);
      if !IsCached(s.pt, Ppn(va)) then look.Refill? || look.Invalid?
      else if write && !Writable(pte) then look.Modified?
      else look == Hit(Target(pte, va))
  {
    hide Pair, Half, EntryHi, PageOfHi, Cached, TlbIdx, EntryLo, Mapped, Pdx, Aligned, Ppn, Writable, Target,
      LoValid, LoDirty, LoTarget, Selects;
    var page := Ppn(va);
    var pte := s.pt.Entry(page);
    FirstMatchIsFirst(s.tlb.key, va, 0);
    var m := FirstMatch(s.tlb.key, va, 0);
    if m < TLBN {
      assert SlotOk(s, m);
      KeyMatches(s.hi[m], va);
      PageRoundTrip(page);
      EntryLoFacts(pte, va); InvalidFacts();
    }
    if IsCached(s.pt, page) {
      CachedSlot(s, page);
      AddressFacts(va);
    }
  }

  // --- page-table edits and the miss handler ---

  /** `tlb_invalidate(pgdir, la); *ptep = pte;` */
  ghost function OverwritePte(s: State, page: PageNo, pte: Word): (r: State)
    requires Coherent(s)
    ensures r.Shape()
  {
    InvalidateCoherent(s, page);
    var s1 := Invalidate(s, page);
    s1.(pt := s1.pt.Set(page, pte))
  }

  /** page_remove_pte, as far as the page table and the TLB go */
  ghost function RemovePte(s: State, page: PageNo): (r: State)
    requires Coherent(s)
  {
    if s.pt.HasTable(page) && Present(s.pt.Entry(page)) then OverwritePte(s, page, 0) else s
  }

  /** A PTE permission argument: some of PTE_P, PTE_W, PTE_U. */
  predicate IsPerm(perm: Word) { perm < 8 }

  /** `page2pa(page) | PTE_P | perm` */
  function NewPte(frame: PageNo, perm: Word): Word
    requires IsPerm(perm)
  {
    frame * 0x1000 + (if Present(perm) then perm else perm + 1)
  }

  lemma NewPteFacts(frame: PageNo, perm: Word)
    requires IsPerm(perm)
    ensures var pte := NewPte(frame, perm);
      !Cached(pte) && Present(pte) && Writable(pte) == Writable(perm) && Frame(pte) == frame
  {
    Join(frame * 0x20, if Present(perm) then perm else perm + 1);
  }

  /** The middle of page_insert: a different page mapped at the address is removed first. */
  ghost function Vacate(s: State, page: PageNo, frame: PageNo): (r: State)
    requires Coherent(s)
  {
    if Present(s.pt.Entry(page)) && Frame(s.pt.Entry(page)) != frame then RemovePte(s, page) else s
  }

  /** page_insert */
  ghost function PageInsert(s: State, page: PageNo, frame: PageNo, perm: Word): (r: State)
    requires Coherent(s) && IsPerm(perm)
    ensures r.Shape()
  {
    EnsureTableCoherent(s, page);
    var s0 := s.(pt := s.pt.EnsureTable(page));
    VacateCoherent(s0, page, frame);
    OverwritePte(Vacate(s0, page, frame), page, NewPte(frame, perm))
  }

  lemma EnsureTableCoherent(s: State, page: PageNo)
    requires Coherent(s)
    ensures Coherent(s.(pt := s.pt.EnsureTable(page)))
  {
    hide Pair, Half, EntryHi, PageOfHi, Cached, TlbIdx, EntryLo, Mapped, Pdx, Aligned;
    var r := s.(pt := s.pt.EnsureTable(page));
    InvalidFacts();
    assert forall p: PageNo, i: nat :: Holds(r, p, i) == Holds(s, p, i);
    forall p: PageNo ensures PageOk(r, p) {
      assert PageOk(s, p);
    }
    forall i | 0 <= i < TLBN ensures SlotOk(r, i) {
      assert SlotOk(s, i);
    }
  }

  /** Overwriting the entry of a page that is not cached with another such entry keeps coherence. */
  lemma SetUncachedCoherent(s: State, page: PageNo, pte: Word)
    requires Coherent(s) && !IsCached(s.pt, page) && !Cached(pte)
    ensures Coherent(s.(pt := s.pt.Set(page, pte)))
  {
    hide Pair, Half, EntryHi, PageOfHi, Cached, TlbIdx, EntryLo, Mapped, Pdx, Aligned;
    var r := s.(pt := s.pt.Set(page, pte));
    assert forall p: PageNo, i: nat :: Holds(r, p, i) == Holds(s, p, i);
    forall p: PageNo ensures PageOk(r, p) {
      assert PageOk(s, p);
    }
    forall i | 0 <= i < TLBN ensures SlotOk(r, i) {
      assert SlotOk(s, i);
    }
  }

  /** Replacing an entry, TLB first, keeps coherence and changes no other entry. */
  lemma OverwritePteCoherent(s: State, page: PageNo, pte: Word)
    requires Coherent(s) && !Cached(pte)
    ensures var r := OverwritePte(s, page, pte);
      && Coherent(r) && r.pt.tables == s.pt.tables && r.pt.Entry(page) == pte
      && (forall p: PageNo | p != page :: r.pt.Entry(p) == s.pt.Entry(p))
  {
    hide Pair, Half, EntryHi, PageOfHi, Cached, TlbIdx, EntryLo, Mapped, Pdx, Aligned, Uncache;
    InvalidateCoherent(s, page);
    SetUncachedCoherent(Invalidate(s, page), page, pte);
  }

  lemma VacateCoherent(s: State, page: PageNo, frame: PageNo)
    requires Coherent(s)
    ensures var r := Vacate(s, page, frame);
      && Coherent(r) && r.pt.tables == s.pt.tables
      && (forall p: PageNo | p != page :: r.pt.Entry(p) == s.pt.Entry(p))
  {
    hide Present, Cached, OverwritePte, Coherent;
    InvalidFacts();
    OverwritePteCoherent(s, page, 0);
  }

  lemma PageInsertCoherent(s: State, page: PageNo, frame: PageNo, perm: Word)
    requires Coherent(s) && IsPerm(perm)
    ensures var r := PageInsert(s, page, frame, perm);
      && Coherent(r) && r.pt.HasTable(page) && r.pt.Entry(page) == NewPte(frame, perm)
      && (forall p: PageNo | p != page && s.pt.HasTable(p) :: r.pt.HasTable(p) && r.pt.Entry(p) == s.pt.Entry(p))
  {
    hide Cached, OverwritePte, Vacate, NewPte, IsPerm, Pdx, Coherent;
    EnsureTableCoherent(s, page);
    var s0 := s.(pt := s.pt.EnsureTable(page));
    VacateCoherent(s0, page, frame);
    NewPteFacts(frame, perm);
    OverwritePteCoherent(Vacate(s0, page, frame), page, NewPte(frame, perm));
  }

  /**
    How do_pgfault ends for a page that is not present: with an error, with a page inserted (fresh, or swapped in where
    the entry is not zero), or with success although no frame was left. The last happens only without swap: with it,
    alloc_pages swaps pages out until it has a frame.
    */
  datatype Fault = Killed | Granted(frame: PageNo, perm: Word) | NoFrame

  ghost predicate FaultOk(fault: Fault) {
    fault.Granted? ==> IsPerm(fault.perm)
  }

  /** tlb_miss_handler; a killed process leaves the page table and the TLB as they are. */
  ghost function HandleMiss(s: State, page: PageNo, fault: Fault): (r: State)
    requires Coherent(s) && FaultOk(fault)
  {
    if s.pt.HasTable(page) && Present(s.pt.Entry(page)) then InsertPage(s, page)
    else match fault
      case Killed => s
      case Granted(frame, perm) => InsertPage(PageInsert(s, page, frame, perm), page)
      case NoFrame =>
        if s.pt.HasTable(page) && s.pt.Entry(page) != 0 then s else InsertPage(s.(pt := s.pt.EnsureTable(page)), page)
  }

  lemma HandleMissCoherent(s: State, page: PageNo, fault: Fault)
    requires Coherent(s) && Mapped(EntryHi(page)) && !IsCached(s.pt, page) && FaultOk(fault)
    ensures Coherent(HandleMiss(s, page, fault))
  {
    hide Present, Cached, PageOk, SlotOk, StackOk, Holds, NewPte, IsPerm, Pdx, InsertPage, PageInsert, EntryHi, Mapped;
    if s.pt.HasTable(page) && Present(s.pt.Entry(page)) {
      InsertPageCoherent(s, page);
    } else {
      match fault
      case Killed =>
      case Granted(frame, perm) =>
        PageInsertCoherent(s, page, frame, perm);
        NewPteFacts(frame, perm);
        InsertPageCoherent(PageInsert(s, page, frame, perm), page);
      case NoFrame =>
        if !s.pt.HasTable(page) || s.pt.Entry(page) == 0 {
          EnsureTableCoherent(s, page);
          InvalidFacts();
          InsertPageCoherent(s.(pt := s.pt.EnsureTable(page)), page);
        }
    }
  }

  // --- TLB maintenance never changes what the page table means ---

  /** Two entries that translate alike: same frame, same PTE_P, same PTE_W. */
  predicate SameMeaning(a: Word, b: Word) {
    Present(a) == Present(b) && Writable(a) == Writable(b) && Frame(a) == Frame(b)
  }

  lemma MeaningWalk(pt: PageTable, pt': PageTable, va: Word)
    requires pt.tables == pt'.tables && SameMeaning(pt'.Entry(Ppn(va)), pt.Entry(Ppn(va)))
    ensures Walk(pt', va) == Walk(pt, va)
  {}

  /** A refill changes entries only in TLB_P and the slot index, and caches no page but its own. */
  lemma InsertPageEntries(s: State, page: PageNo, p: PageNo)
    requires s.Shape()
    ensures var r := InsertPage(s, page).pt;
      && r.tables == s.pt.tables
      && SameMeaning(r.Entry(p), s.pt.Entry(p))
      && (IsCached(r, p) ==> p == page || IsCached(s.pt, p))
      && (s.pt.HasTable(page) ==> IsCached(r, page))
  {
    hide Pair, Half, EntryHi, Cached, TlbIdx, EntryLo, Uncache, Recache, Pdx, Ppn, Present, Writable, Frame, DropBit;
    if s.pt.HasTable(Pair(page)) && Cached(s.pt.Entry(Pair(page))) {
      var i := TlbIdx(s.pt.Entry(Pair(page)));
      RecacheFacts(s.pt.Entry(page), i);
    } else {
      var (s1, i) := TakeSlot(s);
      TakeSlotEntries(s, p);
      TakeSlotEntries(s, page);
      RecacheFacts(s1.pt.Entry(page), i);
    }
  }

  lemma TakeSlotEntries(s: State, p: PageNo)
    requires s.Shape()
    ensures var r := TakeSlot(s).0.pt;
      && r.tables == s.pt.tables
      && SameMeaning(r.Entry(p), s.pt.Entry(p))
      && (IsCached(r, p) ==> IsCached(s.pt, p))
  {
    hide Pair, Cached, Uncache, Pdx, Ppn, Present, Writable, Frame, DropBit;
    if s.n == 0 {
      var page := Ppn(s.hi[s.ptr]);
      DropPair(s.pt, page, p);
      UncacheFacts(s.pt.Entry(p));
      if !s.pt.HasTable(p) && (p == page || p == Pair(page)) {
        DropNothing(s.pt, page);
      }
    }
  }

  lemma DropNothing(pt: PageTable, page: PageNo)
    requires !pt.HasTable(page) || !pt.HasTable(Pair(page))
    ensures DropBit(DropBit(pt, page), Pair(page)) == pt
  {
    hide Pair, Uncache, Pdx;
    PairFacts(page);
  }

  /** tlb_invalidate touches no page-table page and no other entry, and its own entry only in TLB_P. */
  lemma InvalidateFrame(s: State, page: PageNo)
    requires Coherent(s)
    ensures s.n < TLBN || !s.pt.HasTable(page) || !Cached(s.pt.Entry(page))
    ensures var r := Invalidate(s, page);
      && r.pt.tables == s.pt.tables
      && (forall p: PageNo | p != page :: r.pt.Entry(p) == s.pt.Entry(p))
      && (r.pt.Entry(page) == s.pt.Entry(page) || r.pt.Entry(page) == Uncache(s.pt.Entry(page)))
  {
    hide Pair, Half, EntryHi, PageOfHi, Cached, TlbIdx, EntryLo, Mapped, Pdx, Aligned, Uncache;
    InvalidateCoherent(s, page);
  }

  /** Neither a refill nor an invalidation changes any translation. */
  lemma MaintenanceTransparent(s: State, page: PageNo, va: Word)
    requires Coherent(s)
    ensures Walk(InsertPage(s, page).pt, va) == Walk(s.pt, va)
    ensures s.n < TLBN || !s.pt.HasTable(page) || !Cached(s.pt.Entry(page))
    ensures Walk(Invalidate(s, page).pt, va) == Walk(s.pt, va)
  {
    hide InsertPage, Invalidate, Walk, Ppn, Cached, Present, Writable, Frame, PageOk, SlotOk, StackOk, Holds, Uncache,
      Pdx;
    InsertPageEntries(s, page, Ppn(va));
    MeaningWalk(s.pt, InsertPage(s, page).pt, va);
    InvalidateFrame(s, page);
    UncacheFacts(s.pt.Entry(page));
    MeaningWalk(s.pt, Invalidate(s, page).pt, va);
  }

  /** page_insert maps that page to that frame, with that permission, and changes no other translation. */
  lemma PageInsertWalk(s: State, page: PageNo, frame: PageNo, perm: Word, va: Word)
    requires Coherent(s) && IsPerm(perm)
    ensures Walk(PageInsert(s, page, frame, perm).pt, va) ==
              if Ppn(va) == page then MapsTo(frame * 0x1000 + va % 0x1000, Writable(perm)) else Walk(s.pt, va)
  {
    hide Cached, OverwritePte, Vacate, NewPte, IsPerm, Pdx, Coherent, Present, Writable, Frame, Ppn;
    EnsureTableCoherent(s, page);
    var s0 := s.(pt := s.pt.EnsureTable(page));
    VacateCoherent(s0, page, frame);
    NewPteFacts(frame, perm);
    OverwritePteCoherent(Vacate(s0, page, frame), page, NewPte(frame, perm));
    InvalidFacts();
  }

  /** page_remove leaves that page unmapped and changes no other translation. */
  lemma RemovePteWalk(s: State, page: PageNo, va: Word)
    requires Coherent(s)
    ensures Walk(RemovePte(s, page).pt, va) == if Ppn(va) == page then Absent else Walk(s.pt, va)
  {
    hide Cached, OverwritePte, Pdx, Coherent, Present, Writable, Frame, Ppn;
    InvalidFacts();
    OverwritePteCoherent(s, page, 0);
  }

  /**
    What the miss handler does to the meaning of every address: a page that was absent is mapped to the frame the page
    fault granted, and nothing else changes; a page that was present keeps its frame and its permissions.
    */
  lemma HandleMissWalk(s: State, page: PageNo, fault: Fault, va: Word)
    requires Coherent(s) && FaultOk(fault)
    ensures Walk(HandleMiss(s, page, fault).pt, va) ==
              if fault.Granted? && Ppn(va) == page && Walk(s.pt, va).Absent?
              then MapsTo(fault.frame * 0x1000 + va % 0x1000, Writable(fault.perm)) else Walk(s.pt, va)
  {
    hide Present, Cached, Coherent, NewPte, IsPerm, Pdx, InsertPage, PageInsert, Writable, Frame, Ppn, Invalidate;
    if s.pt.HasTable(page) && Present(s.pt.Entry(page)) {
      MaintenanceTransparent(s, page, va);
    } else {
      match fault
      case Killed =>
      case Granted(frame, perm) =>
        PageInsertCoherent(s, page, frame, perm);
        PageInsertWalk(s, page, frame, perm, va);
        MaintenanceTransparent(PageInsert(s, page, frame, perm), page, va);
      case NoFrame =>
        EnsureTableCoherent(s, page);
        MaintenanceTransparent(s.(pt := s.pt.EnsureTable(page)), page, va);
        InvalidFacts();
    }
  }

  // --- the retry after a miss ---

  /** tlb_miss_handler returns to the faulting instruction instead of killing the process. */
  ghost predicate Returns(s: State, page: PageNo, fault: Fault) {
    || (s.pt.HasTable(page) && Present(s.pt.Entry(page))) || fault.Granted?
    || (fault.NoFrame? && (!s.pt.HasTable(page) || s.pt.Entry(page) == 0))
  }

  /** do_pgfault reported success although pgdir_alloc_page found no frame. */
  ghost predicate Unbacked(s: State, page: PageNo, fault: Fault) {
    fault.NoFrame? && (!s.pt.HasTable(page) || s.pt.Entry(page) == 0)
  }

  /** What the handler leaves behind: the page cached, present unless it is unbacked, and nothing else newly cached. */
  lemma HandleMissEntries(s: State, page: PageNo, fault: Fault, p: PageNo)
    requires Coherent(s) && Mapped(EntryHi(page)) && !IsCached(s.pt, page) && FaultOk(fault)
    requires Returns(s, page, fault)
    ensures var r := HandleMiss(s, page, fault).pt;
      && IsCached(r, page)
      && (Present(r.Entry(page)) <==> !Unbacked(s, page, fault))
      && (p != page && IsCached(r, p) ==> IsCached(s.pt, p) && (Present(s.pt.Entry(p)) ==> Present(r.Entry(p))))
  {
    hide Present, Cached, PageOk, SlotOk, StackOk, Holds, NewPte, IsPerm, Pdx, InsertPage, PageInsert, EntryHi,
      Mapped, Writable, Frame, PageTable.EnsureTable;
    InvalidFacts();
    if s.pt.HasTable(page) && Present(s.pt.Entry(page)) {
      InsertPageEntries(s, page, p);
      InsertPageEntries(s, page, page);
    } else {
      match fault
      case Granted(frame, perm) =>
        PageInsertCoherent(s, page, frame, perm);
        NewPteFacts(frame, perm);
        var s1 := PageInsert(s, page, frame, perm);
        InsertPageEntries(s1, page, p);
        InsertPageEntries(s1, page, page);
        if p != page {
          PageInsertCaches(s, page, frame, perm, p);
        }
      case NoFrame =>
        var s1 := s.(pt := s.pt.EnsureTable(page));
        EnsureTableEntries(s.pt, page, p);
        EnsureTableEntries(s.pt, page, page);
        InsertPageEntries(s1, page, p);
        InsertPageEntries(s1, page, page);
    }
  }

  lemma EnsureTableEntries(pt: PageTable, page: PageNo, p: PageNo)
    ensures pt.EnsureTable(page).HasTable(page)
    ensures IsCached(pt.EnsureTable(page), p) ==> IsCached(pt, p)
    ensures pt.HasTable(p) ==> pt.EnsureTable(page).Entry(p) == pt.Entry(p)
    ensures !pt.HasTable(page) ==> pt.EnsureTable(page).Entry(page) == 0
  {
    hide Cached, Pdx;
    InvalidFacts();
  }

  lemma PageInsertCaches(s: State, page: PageNo, frame: PageNo, perm: Word, p: PageNo)
    requires Coherent(s) && IsPerm(perm) && p != page
    ensures var r := PageInsert(s, page, frame, perm).pt;
      IsCached(r, p) ==> IsCached(s.pt, p) && r.Entry(p) == s.pt.Entry(p)
  {
    hide Cached, OverwritePte, Vacate, NewPte, IsPerm, Pdx, Coherent, PageTable.EnsureTable;
    EnsureTableCoherent(s, page);
    EnsureTableEntries(s.pt, page, p);
    var s0 := s.(pt := s.pt.EnsureTable(page));
    VacateCoherent(s0, page, frame);
    NewPteFacts(frame, perm);
    OverwritePteCoherent(Vacate(s0, page, frame), page, NewPte(frame, perm));
  }

  /**
    The handler keeps "only present entries are cached" exactly when it does not go on after a page fault that found
    no frame: then it installs EntryLo of an absent entry.
    */
  lemma HandleMissPresenceIff(s: State, page: PageNo, fault: Fault)
    requires Coherent(s) && CachedArePresent(s.pt)
    requires Mapped(EntryHi(page)) && !IsCached(s.pt, page) && FaultOk(fault)
    ensures CachedArePresent(HandleMiss(s, page, fault).pt) <==> !Unbacked(s, page, fault)
  {
    hide Present, Cached, PageOk, SlotOk, StackOk, Holds, NewPte, IsPerm, Pdx, InsertPage, PageInsert, EntryHi,
      Mapped, PageTable.EnsureTable;
    if Returns(s, page, fault) {
      var r := HandleMiss(s, page, fault).pt;
      HandleMissEntries(s, page, fault, page);
      forall p: PageNo | p != page && IsCached(r, p) ensures Present(r.Entry(p)) {
        HandleMissEntries(s, page, fault, p);
        assert IsCached(s.pt, p);
      }
    }
  }

  /** On an empty page directory a page fault that finds no frame leaves page 1 cached though it is not present. */
  lemma NoFrameBreaksPresence(s: State)
    requires s.Shape()
    ensures var s0, page: PageNo := LoadPgdir(s, PageTable({}, map[])), 1;
      Coherent(s0) && CachedArePresent(s0.pt) && !CachedArePresent(HandleMiss(s0, page, NoFrame).pt)
  {
    var pt := PageTable({}, map[]);
    var s0, page: PageNo := LoadPgdir(s, pt), 1;
    LoadPgdirCoherentIff(s, pt);
    hide LoadPgdir, Coherent, HandleMiss;
    HandleMissPresenceIff(s0, page, NoFrame);
  }

  /**
    The first retry after a miss cannot miss again: it reaches the walk's own frame, or TLB Modified on a read-only
    page.
    */
  lemma RetryHits(s: State, va: Word, write: bool, fault: Fault)
    requires Coherent(s) && Mapped(va) && FaultOk(fault)
    requires Translate(s.tlb, va, write).Refill? || Translate(s.tlb, va, write).Invalid?
    requires Returns(s, Ppn(va), fault) && !Unbacked(s, Ppn(va), fault)
    ensures Coherent(HandleMiss(s, Ppn(va), fault))
    ensures var r := HandleMiss(s, Ppn(va), fault);
      && Walk(r.pt, va).MapsTo?
      && Translate(r.tlb, va, write) ==
           (if write && !Walk(r.pt, va).writable then Modified else Hit(Walk(r.pt, va).pa))
  {
    hide Present, Cached, PageOk, SlotOk, StackOk, Holds, Pdx, EntryHi, Mapped, Translate, HandleMiss, Ppn, Unbacked,
      Returns, Writable, Target;
    var page := Ppn(va);
    TranslateAgrees(s, va, write);
    AddressFacts(va);
    HandleMissCoherent(s, page, fault);
    HandleMissEntries(s, page, fault, page);
    TranslateAgrees(HandleMiss(s, page, fault), va, write);
  }

  // --- whole sessions ---

  datatype Step =
    | Access(va: Word, write: bool, fault: Fault)
    | Flush(page: PageNo)
    | Map(page: PageNo, frame: PageNo, perm: Word)
    | Unmap(page: PageNo)

  ghost predicate StepOk(step: Step) {
    match step
    case Access(_, _, fault) => FaultOk(fault)
    case Flush(_) => true
    case Map(_, frame, perm) => IsPerm(perm)
    case Unmap(_) => true
  }

  /** One step: a load or store (with the miss handler behind it), tlb_invalidate, page_insert or page_remove. */
  ghost function Do(s: State, step: Step): (r: State)
    requires Coherent(s) && StepOk(step)
  {
    match step
    case Access(va, write, fault) =>
      if Mapped(va) && (Translate(s.tlb, va, write).Refill? || Translate(s.tlb, va, write).Invalid?)
      then HandleMiss(s, Ppn(va), fault) else s
    case Flush(page) => InvalidateCoherent(s, page); Invalidate(s, page)
    case Map(page, frame, perm) => PageInsert(s, page, frame, perm)
    case Unmap(page) => RemovePte(s, page)
  }

  lemma DoCoherent(s: State, step: Step)
    requires Coherent(s) && StepOk(step)
    ensures Coherent(Do(s, step))
  {
    hide Coherent, Translate, HandleMiss, Invalidate, PageInsert, OverwritePte, Mapped, Ppn, IsPerm, EntryHi, Cached,
      Present;
    match step
    case Access(va, write, fault) =>
      if Mapped(va) {
        TranslateAgrees(s, va, write);
        AddressFacts(va);
        if !IsCached(s.pt, Ppn(va)) {
          HandleMissCoherent(s, Ppn(va), fault);
        }
      }
    case Flush(page) => InvalidateCoherent(s, page);
    case Map(page, frame, perm) => PageInsertCoherent(s, page, frame, perm);
    case Unmap(page) =>
      InvalidFacts();
      OverwritePteCoherent(s, page, 0);
  }

  ghost function Run(s: State, steps: seq<Step>): (r: State)
    requires Coherent(s) && forall k | 0 <= k < |steps| :: StepOk(steps[k])
    decreases |steps|
  {
    if steps == [] then s
    else
      DoCoherent(s, steps[0]);
      Run(Do(s, steps[0]), steps[1..])
  }

  lemma {:induction false} RunCoherent(s: State, steps: seq<Step>)
    requires Coherent(s) && forall k | 0 <= k < |steps| :: StepOk(steps[k])
    ensures Coherent(Run(s, steps))
    decreases |steps|
  {
    hide Coherent, Do, StepOk;
    if steps != [] {
      DoCoherent(s, steps[0]);
      RunCoherent(Do(s, steps[0]), steps[1..]);
    }
  }

  /** What coherence says of the hardware slots, spelled out for every page and every slot. */
  ghost predicate SlotsMirrorTable(s: State)
    requires s.Shape()
  {
    && (forall page: PageNo | s.pt.HasTable(page) ::
          var pte := s.pt.Entry(page);
          Cached(pte) <==>
          s.tlb.key[TlbIdx(pte)] == EntryHi(page) && s.tlb.Lo(Half(page), TlbIdx(pte)) == EntryLo(pte))
    && (forall i: nat | i < TLBN :: IsFree(s, i) <==> forall page: PageNo :: !Holds(s, page, i))
    && StackOk(s)
    && (forall i: nat, j: nat | i < j < TLBN && !IsFree(s, i) && !IsFree(s, j) :: s.tlb.key[i] != s.tlb.key[j])
  }

  lemma CoherentMirrors(s: State)
    requires Coherent(s)
    ensures SlotsMirrorTable(s)
  {
    hide Pair, Half, EntryHi, PageOfHi, Cached, TlbIdx, EntryLo, Mapped, Pdx, Aligned;
    forall page: PageNo | s.pt.HasTable(page)
      ensures var pte := s.pt.Entry(page);
        Cached(pte) <==>
        s.tlb.key[TlbIdx(pte)] == EntryHi(page) && s.tlb.Lo(Half(page), TlbIdx(pte)) == EntryLo(pte)
    {
      PageMirrored(s, page);
    }
    forall i: nat | i < TLBN ensures IsFree(s, i) <==> forall page: PageNo :: !Holds(s, page, i) {
      assert SlotOk(s, i);
      forall page: PageNo | IsFree(s, i) ensures !Holds(s, page, i) {
        assert PageOk(s, page);
      }
      if !IsFree(s, i) {
        assert Holds(s, PageOfHi(s.hi[i], false), i) || Holds(s, PageOfHi(s.hi[i], true), i);
      }
    }
    forall i: nat | i < TLBN && !IsFree(s, i) ensures s.tlb.key[i] == s.hi[i] {
      assert SlotOk(s, i);
    }
  }

  lemma PageMirrored(s: State, page: PageNo)
    requires Coherent(s) && s.pt.HasTable(page)
    ensures var pte := s.pt.Entry(page);
      Cached(pte) <==>
      s.tlb.key[TlbIdx(pte)] == EntryHi(page) && s.tlb.Lo(Half(page), TlbIdx(pte)) == EntryLo(pte)
  {
    hide Pair, Half, EntryHi, PageOfHi, Cached, TlbIdx, EntryLo, Mapped, Pdx, Aligned;
    var pte := s.pt.Entry(page);
    var i := TlbIdx(pte);
    assert SlotOk(s, i);
    PageRoundTrip(page);
    EntryLoFacts(pte, 0);
    if Cached(pte) {
      CachedSlot(s, page);
    }
  }

  /**
    From load_pgdir of a page directory without TLB_P bits, every run of accesses, misses, evictions, invalidations
    and page-table edits keeps the TLB an exact image of the TLB_P bits in the page table.
    */
  lemma SessionCoherent(s: State, pt: PageTable, steps: seq<Step>)
    requires s.Shape() && NoneCached(pt)
    requires forall k | 0 <= k < |steps| :: StepOk(steps[k])
    ensures Coherent(LoadPgdir(s, pt))
    ensures Coherent(Run(LoadPgdir(s, pt), steps))
    ensures SlotsMirrorTable(Run(LoadPgdir(s, pt), steps))
  {
    LoadPgdirCoherentIff(s, pt);
    RunCoherent(LoadPgdir(s, pt), steps);
    CoherentMirrors(Run(LoadPgdir(s, pt), steps));
  }

  /** No page fault in the step was reported as handled without a frame. */
  ghost predicate Backed(step: Step) {
    step.Access? ==> !step.fault.NoFrame?
  }

  lemma DoPresence(s: State, step: Step)
    requires Coherent(s) && CachedArePresent(s.pt) && StepOk(step) && Backed(step)
    ensures CachedArePresent(Do(s, step).pt)
  {
    hide Coherent, Translate, HandleMiss, Invalidate, PageInsert, OverwritePte, Mapped, Ppn, IsPerm, EntryHi, Cached,
      Present,
      Uncache;
    match step
    case Access(va, write, fault) =>
      if Mapped(va) {
        TranslateAgrees(s, va, write);
        AddressFacts(va);
        if !IsCached(s.pt, Ppn(va)) {
          HandleMissPresenceIff(s, Ppn(va), fault);
        }
      }
    case Flush(page) =>
      InvalidateFrame(s, page);
      UncacheFacts(s.pt.Entry(page));
    case Map(page, frame, perm) =>
      PageInsertCoherent(s, page, frame, perm);
      NewPteFacts(frame, perm);
      forall p: PageNo | IsCached(PageInsert(s, page, frame, perm).pt, p)
        ensures Present(PageInsert(s, page, frame, perm).pt.Entry(p))
      {
        if p != page {
          PageInsertCaches(s, page, frame, perm, p);
        }
      }
    case Unmap(page) =>
      InvalidFacts();
      OverwritePteCoherent(s, page, 0);
  }

  lemma {:induction false} RunPresence(s: State, steps: seq<Step>)
    requires Coherent(s) && CachedArePresent(s.pt)
    requires forall k | 0 <= k < |steps| :: StepOk(steps[k]) && Backed(steps[k])
    ensures CachedArePresent(Run(s, steps).pt)
    decreases |steps|
  {
    hide Coherent, Do, StepOk, CachedArePresent;
    if steps != [] {
      DoCoherent(s, steps[0]);
      DoPresence(s, steps[0]);
      RunPresence(Do(s, steps[0]), steps[1..]);
    }
  }

  /**
    In such a session, given enough frames, an access the emulator lets through goes where the page-table walk says,
    and a write is let through only when the walk says writable.
    */
  lemma SessionTranslates(s: State, pt: PageTable, steps: seq<Step>, va: Word, write: bool)
    requires s.Shape() && NoneCached(pt) && Mapped(va)
    requires forall k | 0 <= k < |steps| :: StepOk(steps[k]) && Backed(steps[k])
    ensures Coherent(LoadPgdir(s, pt)) && Coherent(Run(LoadPgdir(s, pt), steps))
    ensures var r := Run(LoadPgdir(s, pt), steps); var look := Translate(r.tlb, va, write);
      && (look.Hit? ==> Walk(r.pt, va).MapsTo? && look.pa == Walk(r.pt, va).pa && (write ==> Walk(r.pt, va).writable))
      && (look.Modified? ==> write && Walk(r.pt, va).MapsTo? && !Walk(r.pt, va).writable)
  {
    hide Coherent, StepOk, Translate, Mapped, Ppn, Present, Writable, Target, Cached, Run, Backed;
    SessionCoherent(s, pt, steps);
    var s0 := LoadPgdir(s, pt);
    RunPresence(s0, steps);
    TranslateAgrees(Run(s0, steps), va, write);
  }

  // --- the same session without a TLB ---

  /** A page as the kernel means it: its frame, and whether it may be written */
  datatype Grant = Grant(frame: PageNo, writable: bool)

  /** Where an address goes if these pages are mapped and no others */
  function Intended(pages: map<PageNo, Grant>, va: Word): Mapping {
    if Ppn(va) in pages then MapsTo(pages[Ppn(va)].frame * 0x1000 + va % 0x1000, pages[Ppn(va)].writable) else Absent
  }

  /** What a step does to them: a fault on a page that is not there maps it, and TLB maintenance does nothing. */
  function DoIntended(pages: map<PageNo, Grant>, step: Step): map<PageNo, Grant> {
    match step
    case Access(va, _, fault) =>
      if Mapped(va) && Ppn(va) !in pages && fault.Granted?
      then pages[Ppn(va) := Grant(fault.frame, Writable(fault.perm))] else pages
    case Flush(_) => pages
    case Map(page, frame, perm) => pages[page := Grant(frame, Writable(perm))]
    case Unmap(page) => pages - {page}
  }

  function RunIntended(pages: map<PageNo, Grant>, steps: seq<Step>): map<PageNo, Grant>
    decreases |steps|
  {
    if steps == [] then pages else RunIntended(DoIntended(pages, steps[0]), steps[1..])
  }

  ghost predicate Means(pt: PageTable, pages: map<PageNo, Grant>) {
    forall va: Word :: Walk(pt, va) == Intended(pages, va)
  }

  lemma DoMeans(s: State, pages: map<PageNo, Grant>, step: Step)
    requires Coherent(s) && CachedArePresent(s.pt) && StepOk(step) && Backed(step) && Means(s.pt, pages)
    ensures Means(Do(s, step).pt, DoIntended(pages, step))
  {
    hide Coherent, Translate, HandleMiss, Invalidate, PageInsert, OverwritePte, Mapped, Ppn, IsPerm, Cached, Present,
      Writable, Target, RemovePte;
    match step
    case Access(va, write, fault) =>
      if Mapped(va) {
        TranslateAgrees(s, va, write);
        assert Walk(s.pt, va) == Intended(pages, va);
        forall x: Word ensures Walk(Do(s, step).pt, x) == Intended(DoIntended(pages, step), x) {
          HandleMissWalk(s, Ppn(va), fault, x);
          SamePageWalk(s.pt, va, x);
        }
      }
    case Flush(page) =>
      forall x: Word ensures Walk(Do(s, step).pt, x) == Walk(s.pt, x) {
        MaintenanceTransparent(s, page, x);
      }
    case Map(page, frame, perm) =>
      forall x: Word ensures Walk(Do(s, step).pt, x) == Intended(DoIntended(pages, step), x) {
        PageInsertWalk(s, page, frame, perm, x);
      }
    case Unmap(page) =>
      forall x: Word ensures Walk(Do(s, step).pt, x) == Intended(DoIntended(pages, step), x) {
        RemovePteWalk(s, page, x);
      }
  }

  lemma SamePageWalk(pt: PageTable, va: Word, x: Word)
    ensures Ppn(x) == Ppn(va) ==> Walk(pt, x).Absent? == Walk(pt, va).Absent?
  {}

  lemma {:induction false} RunMeans(s: State, pages: map<PageNo, Grant>, steps: seq<Step>)
    requires Coherent(s) && CachedArePresent(s.pt) && Means(s.pt, pages)
    requires forall k | 0 <= k < |steps| :: StepOk(steps[k]) && Backed(steps[k])
    ensures Means(Run(s, steps).pt, RunIntended(pages, steps))
    decreases |steps|
  {
    hide Coherent, Do, StepOk, CachedArePresent, Means, DoIntended;
    if steps != [] {
      DoCoherent(s, steps[0]);
      DoPresence(s, steps[0]);
      DoMeans(s, pages, steps[0]);
      RunMeans(Do(s, steps[0]), DoIntended(pages, steps[0]), steps[1..]);
    }
  }

  /**
    The TLB does not show: at every point of a session the emulator's lookup, when it hits, goes where a plain list of
    the pages mapped so far says, to which misses, evictions and invalidations have done nothing.
    */
  lemma TlbDoesNotShow(s: State, pt: PageTable, pages: map<PageNo, Grant>, steps: seq<Step>, va: Word, write: bool)
    requires s.Shape() && NoneCached(pt) && Mapped(va) && Means(pt, pages)
    requires forall k | 0 <= k < |steps| :: StepOk(steps[k]) && Backed(steps[k])
    ensures Coherent(LoadPgdir(s, pt)) && Coherent(Run(LoadPgdir(s, pt), steps))
    ensures var look := Translate(Run(LoadPgdir(s, pt), steps).tlb, va, write);
            var meant := Intended(RunIntended(pages, steps), va);
            && (look.Hit? ==> meant.MapsTo? && look.pa == meant.pa && (write ==> meant.writable))
            && (look.Modified? ==> write && meant.MapsTo? && !meant.writable)
  {
    hide Coherent, StepOk, Translate, Mapped, Run, RunIntended, Backed, Walk, Intended;
    SessionTranslates(s, pt, steps, va, write);
    assert CachedArePresent(LoadPgdir(s, pt).pt);
    RunMeans(LoadPgdir(s, pt), pages, steps);
  }
}
