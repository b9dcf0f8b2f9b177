/**
  The kernel's software-managed TLB (kern/mm/tlb.c) as functions on its state, and the emulator's
  lookup (src/mmu.h, addr_translate) that reads what the kernel wrote.
  */
module TlbModel {
  import opened Counting
  import opened PageWords

  /** The current page directory: which page-table pages exist, and the entries written since each was cleared. */
  datatype PageTable = PageTable(tables: set<nat>, entries: map<PageNo, Word>) {

    /** get_pte(pgdir, la, 0) != NULL */
    predicate HasTable(page: PageNo) { Pdx(page) in tables }

    /** *get_pte(pgdir, la, 0) */
    function Entry(page: PageNo): Word {
      if page in entries then entries[page] else 0
    }

    function Set(page: PageNo, pte: Word): PageTable {
      this.(entries := entries[page := pte])
    }

    /** get_pte(pgdir, la, 1): a missing page-table page is allocated and cleared. */
    function EnsureTable(page: PageNo): PageTable {
      if HasTable(page) then this
      else PageTable(tables + {Pdx(page)}, map p | p in entries && Pdx(p) != Pdx(page) :: entries[p])
    }
  }

  /** The emulator's TLB arrays. */
  datatype Tlb = Tlb(key: seq<Word>, lo0: seq<Word>, lo1: seq<Word>) {
    predicate Shape() { |key| == TLBN && |lo0| == TLBN && |lo1| == TLBN }

    function Lo(half: bool, i: nat): Word
      requires Shape() && i < TLBN
    {
      if half then lo1[i] else lo0[i]
    }

    /** mtc0 Index, EntryHi, EntryLo0, EntryLo1; tlbwi */
    function Write(i: nat, hi: Word, l0: Word, l1: Word): (t: Tlb)
      requires Shape() && i < TLBN
      ensures t.Shape()
    {
      Tlb(key[i := hi], lo0[i := l0], lo1[i := l1])
    }
  }

  /** Kernel bookkeeping (tlb_algo_*), hardware slots and the current page table. */
  datatype State = State(tlb: Tlb, empty: seq<nat>, n: nat, hi: seq<Word>, ptr: nat, pt: PageTable) {
    predicate Shape() {
      && tlb.Shape()
      && |empty| == TLBN && n <= TLBN && (forall k | 0 <= k < n :: empty[k] < TLBN)
      && |hi| == TLBN && ptr < TLBN
    }
  }

  // --- the emulator's lookup ---

  datatype Lookup = Hit(pa: Word) | Refill | Invalid | Modified

  /** Index of the first slot at or after `i` that selects `va`; TLBN when there is none. */
  function FirstMatch(key: seq<Word>, va: Word, i: nat): (m: nat)
    requires |key| == TLBN && i <= TLBN
    ensures i <= m <= TLBN
    decreases TLBN - i
  {
    if i == TLBN || Selects(key[i], va) then i else FirstMatch(key, va, i + 1)
  }

  lemma {:induction false} FirstMatchIsFirst(key: seq<Word>, va: Word, i: nat)
    requires |key| == TLBN && i <= TLBN
    ensures var m := FirstMatch(key, va, i);
      && (m < TLBN ==> Selects(key[m], va))
      && (forall j | i <= j < m :: !Selects(key[j], va))
    decreases TLBN - i
  {
    hide Selects;
    if i < TLBN && !Selects(key[i], va) {
      FirstMatchIsFirst(key, va, i + 1);
    }
  }

  /** addr_translate on an address outside kseg0 and kseg1 */
  function Translate(t: Tlb, va: Word, write: bool): Lookup
    requires t.Shape()
  {
    var m := FirstMatch(t.key, va, 0);
    if m == TLBN then Refill
    else
      var lo := t.Lo(Half(Ppn(va)), m);
      if !LoValid(lo) then Invalid
      else if !LoDirty(lo) && write then Modified
      else Hit(LoTarget(lo, va))
  }

  // --- the kernel's operations ---

  /** tlb_init, called by load_pgdir after it has switched cur_pgdir */
  function LoadPgdir(s: State, pt: PageTable): State
    requires s.Shape()
  {
    State(Tlb(seq(TLBN, _ => ENTRYHI_INVALID), seq(TLBN, _ => ENTRYLO_INVALID), seq(TLBN, _ => ENTRYLO_INVALID)),
          seq(TLBN, i => i), TLBN, s.hi, s.ptr, pt)
  }

  /** `ptep = get_pte(...); if (ptep != NULL) *ptep &= ~TLB_P` */
  function DropBit(pt: PageTable, page: PageNo): PageTable {
    if pt.HasTable(page) then pt.Set(page, Uncache(pt.Entry(page))) else pt
  }

  /** tlb_get_empty up to the update of tlb_algo_hi */
  function TakeSlot(s: State): (r: (State, nat))
    requires s.Shape()
    ensures r.0.Shape() && r.1 < TLBN
  {
    if s.n > 0 then (s.(n := s.n - 1), s.empty[s.n - 1])
    else
      var idx := s.ptr;
      var page := Ppn(s.hi[idx]);
      (s.(ptr := (s.ptr + 1) % TLBN, pt := DropBit(DropBit(s.pt, page), Pair(page))), idx)
  }

  function WriteHalves(t: Tlb, i: nat, hi: Word, half: bool, mine: Word, other: Word): (r: Tlb)
    requires t.Shape() && i < TLBN
    ensures r.Shape()
  {
    if half then t.Write(i, hi, other, mine) else t.Write(i, hi, mine, other)
  }

  /** tlb_get_empty, tlb_write and the PTE update of tlb_miss_handler when the paired page is not cached */
  function FillSlot(s: State, i: nat, page: PageNo): (r: State)
    requires s.Shape() && i < TLBN
    ensures r.Shape()
  {
    s.(hi := s.hi[i := EntryHi(page)],
       tlb := WriteHalves(s.tlb, i, EntryHi(page), Half(page), EntryLo(s.pt.Entry(page)), ENTRYLO_INVALID),
       pt := s.pt.Set(page, Recache(s.pt.Entry(page), i)))
  }

  /** tlb_miss_handler from "check for paired entry" on */
  function InsertPage(s: State, page: PageNo): (r: State)
    requires s.Shape()
    ensures r.Shape()
  {
    var pair := Pair(page);
    if s.pt.HasTable(pair) && Cached(s.pt.Entry(pair)) then
      var i := TlbIdx(s.pt.Entry(pair));
      s.(tlb := WriteHalves(s.tlb, i, EntryHi(page), Half(page), EntryLo(s.pt.Entry(page)), EntryLo(s.pt.Entry(pair))),
         pt := s.pt.Set(page, Recache(s.pt.Entry(page), i)))
    else
      var (s1, i) := TakeSlot(s);
      FillSlot(s1, i, page)
  }

  /** tlb_del_callback and tlb_write of an invalid entry; the stack is full only if no slot is in use */
  function ReleaseSlot(s: State, i: nat): (r: State)
    requires s.Shape() && i < TLBN && s.n < TLBN
    ensures r.Shape()
  {
    s.(empty := s.empty[s.n := i], n := s.n + 1,
       tlb := s.tlb.Write(i, ENTRYHI_INVALID, ENTRYLO_INVALID, ENTRYLO_INVALID))
  }

  /** tlb_invalidate on the current page directory */
  function Invalidate(s: State, page: PageNo): (r: State)
    requires s.Shape() && (s.n < TLBN || !s.pt.HasTable(page) || !Cached(s.pt.Entry(page)))
    ensures r.Shape()
  {
    if !s.pt.HasTable(page) || !Cached(s.pt.Entry(page)) then s
    else
      var i := TlbIdx(s.pt.Entry(page));
      var pair := Pair(page);
      var s1 := s.(pt := s.pt.Set(page, Uncache(s.pt.Entry(page))));
      if s.pt.HasTable(pair) && Cached(s.pt.Entry(pair)) then
        s1.(tlb := WriteHalves(s.tlb, i, EntryHi(page), Half(page), ENTRYLO_INVALID, EntryLo(s.pt.Entry(pair))))
      else ReleaseSlot(s1, i)
  }

  // --- coherence of the cache with the page table ---

  predicate IsFree(s: State, i: nat)
    requires s.Shape()
  {
    i in s.empty[..s.n]
  }

  /** The entry of `page` says it is cached in slot `i`. */
  predicate Holds(s: State, page: PageNo, i: nat) {
    s.pt.HasTable(page) && Cached(s.pt.Entry(page)) && TlbIdx(s.pt.Entry(page)) == i
  }

  /** What the half of slot `i` for `page` must contain. */
  function ExpectedLo(s: State, page: PageNo, i: nat): Word {
    if Holds(s, page, i) then EntryLo(s.pt.Entry(page)) else ENTRYLO_INVALID
  }

  ghost predicate PageOk(s: State, page: PageNo)
    requires s.Shape()
  {
    s.pt.HasTable(page) && Cached(s.pt.Entry(page)) ==>
      var i := TlbIdx(s.pt.Entry(page));
      !IsFree(s, i) && s.hi[i] == EntryHi(page) && Mapped(EntryHi(page))
  }

  ghost predicate FreeSlotOk(s: State, i: nat)
    requires s.Shape() && i < TLBN
  {
    s.tlb.key[i] == ENTRYHI_INVALID && s.tlb.lo0[i] == ENTRYLO_INVALID && s.tlb.lo1[i] == ENTRYLO_INVALID
  }

  ghost predicate UsedSlotOk(s: State, i: nat)
    requires s.Shape() && i < TLBN
  {
    && Aligned(s.hi[i])
    && s.tlb.key[i] == s.hi[i]
    && s.tlb.lo0[i] == ExpectedLo(s, PageOfHi(s.hi[i], false), i)
    && s.tlb.lo1[i] == ExpectedLo(s, PageOfHi(s.hi[i], true), i)
    && (Holds(s, PageOfHi(s.hi[i], false), i) || Holds(s, PageOfHi(s.hi[i], true), i))
  }

  ghost predicate SlotOk(s: State, i: nat)
    requires s.Shape() && i < TLBN
  {
    if IsFree(s, i) then FreeSlotOk(s, i) else UsedSlotOk(s, i)
  }

  ghost predicate StackOk(s: State)
    requires s.Shape()
  {
    Distinct(s.empty[..s.n])
  }

  /** Coherence with slot `x` (if it is a slot at all) taken out of the picture: nothing is cached there. */
  ghost predicate CoherentExcept(s: State, x: nat) {
    && s.Shape()
    && StackOk(s)
    && (forall page: PageNo :: PageOk(s, page) && !Holds(s, page, x))
    && (forall i | 0 <= i < TLBN && i != x :: SlotOk(s, i))
    && (forall i, j | 0 <= i < TLBN && 0 <= j < TLBN && i != j && i != x && j != x && !IsFree(s, i) && !IsFree(s, j) ::
          s.hi[i] != s.hi[j])
  }

  ghost predicate Coherent(s: State) {
    CoherentExcept(s, TLBN)
  }

  /** Writing slot `x` for one page of a pair neither of whose pages is cached completes coherence. */
  lemma FillSlotCoherent(s: State, x: nat, page: PageNo)
    requires x < TLBN && CoherentExcept(s, x) && !IsFree(s, x)
    requires s.pt.HasTable(page) && Mapped(EntryHi(page))
    requires !Cached(s.pt.Entry(page)) && !Cached(s.pt.Entry(Pair(page)))
    ensures Coherent(FillSlot(s, x, page))
  {
    hide Pair, Half, EntryHi, PageOfHi, Cached, TlbIdx, EntryLo, Recache, Mapped, Pdx, Aligned;
    var r := FillSlot(s, x, page);
    forall p: PageNo ensures PageOk(r, p) && !Holds(r, p, TLBN) {
      FillSlotPage(s, x, page, p);
    }
    forall i | 0 <= i < TLBN ensures SlotOk(r, i) && (i != x && !IsFree(r, i) ==> r.hi[i] != EntryHi(page)) {
      FillSlotSlot(s, x, page, i);
    }
  }

  lemma FillSlotPage(s: State, x: nat, page: PageNo, p: PageNo)
    requires x < TLBN && CoherentExcept(s, x) && !IsFree(s, x)
    requires s.pt.HasTable(page) && Mapped(EntryHi(page))
    ensures PageOk(FillSlot(s, x, page), p)
  {
    hide Pair, Half, EntryHi, PageOfHi, Cached, TlbIdx, EntryLo, Recache, Mapped, Pdx, Aligned, SlotOk, StackOk;
    RecacheFacts(s.pt.Entry(page), x);
    assert PageOk(s, p) && !Holds(s, p, x);
  }

  lemma FillSlotSlot(s: State, x: nat, page: PageNo, i: nat)
    requires x < TLBN && CoherentExcept(s, x) && !IsFree(s, x)
    requires s.pt.HasTable(page) && Mapped(EntryHi(page))
    requires !Cached(s.pt.Entry(page)) && !Cached(s.pt.Entry(Pair(page)))
    requires i < TLBN
    ensures SlotOk(FillSlot(s, x, page), i)
    ensures i != x && !IsFree(s, i) ==> s.hi[i] != EntryHi(page)
  {
    hide Pair, Half, EntryHi, PageOfHi, Cached, TlbIdx, EntryLo, Recache, Mapped, Pdx, Aligned, PageOk, StackOk;
    if i == x {
      FillSlotMine(s, x, page);
    } else {
      assert SlotOk(s, i);
      if !IsFree(s, i) {
        FillSlotOther(s, x, page, i);
      }
    }
  }

  lemma FillSlotMine(s: State, x: nat, page: PageNo)
    requires s.Shape() && x < TLBN
    requires s.pt.HasTable(page) && !Cached(s.pt.Entry(Pair(page)))
    ensures UsedSlotOk(FillSlot(s, x, page), x)
  {
    hide Pair, Half, EntryHi, PageOfHi, Cached, TlbIdx, EntryLo, Recache, Mapped, Pdx, Aligned;
    var pte := s.pt.Entry(page);
    PageRoundTrip(page); PairFacts(page);
    RecacheFacts(pte, x);
  }

  lemma FillSlotOther(s: State, x: nat, page: PageNo, i: nat)
    requires s.Shape() && x < TLBN && i < TLBN && i != x && UsedSlotOk(s, i)
    requires !Cached(s.pt.Entry(page)) && !Cached(s.pt.Entry(Pair(page)))
    ensures UsedSlotOk(FillSlot(s, x, page), i)
    ensures s.hi[i] != EntryHi(page)
  {
    hide Pair, Half, EntryHi, PageOfHi, Cached, TlbIdx, EntryLo, Recache, Mapped, Pdx, Aligned;
    var hi := s.hi[i];
    RecacheFacts(s.pt.Entry(page), x);
    PageRoundTrip(page);
  }

  /** The page table with TLB_P cleared on both pages of a pair. */
  lemma DropPair(pt: PageTable, page: PageNo, p: PageNo)
    ensures var r := DropBit(DropBit(pt, page), Pair(page));
      && r.tables == pt.tables
      && (pt.HasTable(p) && (p == page || p == Pair(page)) ==> r.Entry(p) == Uncache(pt.Entry(p)))
      && (p != page && p != Pair(page) ==> r.Entry(p) == pt.Entry(p))
  {
    hide Pair, Uncache, Pdx;
    PairFacts(page);
  }

  /** A slot popped from the stack or evicted holds nothing, and no other slot was disturbed. */
  lemma TakeSlotCoherent(s: State)
    requires Coherent(s)
    ensures var (r, x) := TakeSlot(s); CoherentExcept(r, x) && !IsFree(r, x)
  {
    if s.n > 0 {
      PopCoherent(s);
    } else {
      EvictCoherent(s);
    }
  }

  lemma PopCoherent(s: State)
    requires Coherent(s) && s.n > 0
    ensures var (r, x) := TakeSlot(s); CoherentExcept(r, x) && !IsFree(r, x)
  {
    hide Pair, Half, EntryHi, PageOfHi, Cached, TlbIdx, EntryLo, Uncache, Mapped, Pdx, Aligned;
    var (r, x) := TakeSlot(s);
    assert s.empty[..s.n] == r.empty[..r.n] + [x];
    assert forall i: nat :: IsFree(s, i) <==> IsFree(r, i) || i == x;
    forall p: PageNo ensures PageOk(r, p) && !Holds(r, p, x) {
      assert PageOk(s, p);
    }
    forall i | 0 <= i < TLBN && i != x ensures SlotOk(r, i) {
      assert SlotOk(s, i);
    }
  }

  lemma EvictCoherent(s: State)
    requires Coherent(s) && s.n == 0
    ensures var (r, x) := TakeSlot(s); CoherentExcept(r, x) && !IsFree(r, x)
  {
    hide Pair, Half, EntryHi, PageOfHi, Cached, TlbIdx, EntryLo, Uncache, Mapped, Pdx, Aligned, DropBit;
    var (r, x) := TakeSlot(s);
    assert SlotOk(s, x);
    forall p: PageNo ensures PageOk(r, p) && !Holds(r, p, x) {
      EvictPage(s, p);
    }
    forall i | 0 <= i < TLBN && i != x ensures SlotOk(r, i) {
      EvictOtherSlot(s, i);
    }
  }

  lemma EvictPage(s: State, p: PageNo)
    requires Coherent(s) && s.n == 0
    ensures var (r, x) := TakeSlot(s); PageOk(r, p) && !Holds(r, p, x)
  {
    hide Pair, Half, EntryHi, PageOfHi, Cached, TlbIdx, EntryLo, Uncache, Mapped, Pdx, Aligned, DropBit, Ppn;
    var hi := s.hi[s.ptr];
    assert SlotOk(s, s.ptr);
    assert PageOk(s, p);
    HiRoundTrip(hi, false); PageRoundTrip(p);
    DropPair(s.pt, Ppn(hi), p);
    UncacheFacts(s.pt.Entry(p));
  }

  lemma EvictOtherSlot(s: State, i: nat)
    requires Coherent(s) && s.n == 0 && i < TLBN && i != s.ptr
    ensures SlotOk(TakeSlot(s).0, i)
  {
    hide Pair, Half, EntryHi, PageOfHi, Cached, TlbIdx, EntryLo, Uncache, Mapped, Pdx, Aligned, DropBit, Ppn, PageOk;
    var hi := s.hi[s.ptr];
    assert SlotOk(s, s.ptr) && SlotOk(s, i);
    HiRoundTrip(hi, false); HiRoundTrip(hi, true);
    HiRoundTrip(s.hi[i], false); HiRoundTrip(s.hi[i], true);
    DropPair(s.pt, Ppn(hi), PageOfHi(s.hi[i], false));
    DropPair(s.pt, Ppn(hi), PageOfHi(s.hi[i], true));
  }

  /** A slot in use keeps the stack of free slots from being full, so tlb_del_callback never overruns it. */
  lemma StackNotFull(s: State, i: nat)
    requires s.Shape() && StackOk(s) && i < TLBN && !IsFree(s, i)
    ensures s.n < TLBN
  {
    Pigeonhole(s.empty[..s.n], TLBN, i);
  }

  /** In a coherent state a cached page's slot is in use, and the two pages of a pair share theirs. */
  lemma CachedSlot(s: State, page: PageNo)
    requires Coherent(s) && s.pt.HasTable(page) && Cached(s.pt.Entry(page))
    ensures var i := TlbIdx(s.pt.Entry(page));
      && s.n < TLBN && !IsFree(s, i) && s.hi[i] == EntryHi(page) && UsedSlotOk(s, i) && Holds(s, page, i)
      && (Cached(s.pt.Entry(Pair(page))) ==> Holds(s, Pair(page), i))
  {
    hide Pair, Half, EntryHi, PageOfHi, Cached, TlbIdx, EntryLo, Mapped, Pdx, Aligned, UsedSlotOk;
    var i := TlbIdx(s.pt.Entry(page));
    assert PageOk(s, page);
    assert SlotOk(s, i);
    StackNotFull(s, i);
    PairFacts(page);
    if Cached(s.pt.Entry(Pair(page))) {
      assert PageOk(s, Pair(page));
      PairFacts(page);
    }
  }

  /** tlb_invalidate keeps coherence. */
  lemma InvalidateCoherent(s: State, page: PageNo)
    requires Coherent(s)
    ensures s.n < TLBN || !s.pt.HasTable(page) || !Cached(s.pt.Entry(page))
    ensures Coherent(Invalidate(s, page))
    ensures !Cached(Invalidate(s, page).pt.Entry(page)) || !s.pt.HasTable(page)
  {
    hide Pair, Half, EntryHi, PageOfHi, Cached, TlbIdx, EntryLo, Uncache, Mapped, Pdx, Aligned;
    if s.pt.HasTable(page) && Cached(s.pt.Entry(page)) {
      CachedSlot(s, page);
      UncacheFacts(s.pt.Entry(page));
      PairFacts(page);
      if Cached(s.pt.Entry(Pair(page))) {
        InvalidateHalf(s, page);
      } else {
        InvalidateLast(s, page);
      }
    }
  }

  /** The other page of the pair stays cached: its half survives in the same slot. */
  lemma InvalidateHalf(s: State, page: PageNo)
    requires Coherent(s) && s.pt.HasTable(page) && Cached(s.pt.Entry(page)) && Cached(s.pt.Entry(Pair(page)))
    requires s.n < TLBN
    ensures Coherent(Invalidate(s, page))
  {
    hide Pair, Half, EntryHi, PageOfHi, Cached, TlbIdx, EntryLo, Uncache, Mapped, Pdx, Aligned;
    var x := TlbIdx(s.pt.Entry(page));
    var r := Invalidate(s, page);
    CachedSlot(s, page);
    PairFacts(page); PageRoundTrip(page);
    UncacheFacts(s.pt.Entry(page));
    forall p: PageNo ensures PageOk(r, p) && !Holds(r, p, TLBN) {
      assert PageOk(s, p);
    }
    forall i | 0 <= i < TLBN ensures SlotOk(r, i) {
      assert SlotOk(s, i);
      if i != x && !IsFree(s, i) {
        OtherSlotKept(s, r, page, x, i);
      }
    }
  }

  /** A change confined to the entry of `page` and to slot `x` leaves every other slot in use as it was. */
  lemma OtherSlotKept(s: State, r: State, page: PageNo, x: nat, i: nat)
    requires s.Shape() && r.Shape() && x < TLBN && i < TLBN && i != x
    requires UsedSlotOk(s, i) && s.hi[i] != EntryHi(page)
    requires r.pt.tables == s.pt.tables && (forall p: PageNo | p != page :: r.pt.Entry(p) == s.pt.Entry(p))
    requires r.hi[i] == s.hi[i] && r.tlb.key[i] == s.tlb.key[i]
    requires r.tlb.lo0[i] == s.tlb.lo0[i] && r.tlb.lo1[i] == s.tlb.lo1[i]
    ensures UsedSlotOk(r, i)
  {
    hide Pair, Half, EntryHi, PageOfHi, Cached, TlbIdx, EntryLo, Uncache, Mapped, Pdx, Aligned;
    HiRoundTrip(s.hi[i], false);
    HiRoundTrip(s.hi[i], true);
  }

  /** The other page is not cached: the slot goes back to the stack. */
  lemma InvalidateLast(s: State, page: PageNo)
    requires Coherent(s) && s.pt.HasTable(page) && Cached(s.pt.Entry(page)) && !Cached(s.pt.Entry(Pair(page)))
    requires s.n < TLBN
    ensures Coherent(Invalidate(s, page))
  {
    hide Pair, Half, EntryHi, PageOfHi, Cached, TlbIdx, EntryLo, Uncache, Mapped, Pdx, Aligned;
    var x := TlbIdx(s.pt.Entry(page));
    var r := Invalidate(s, page);
    CachedSlot(s, page);
    UncacheFacts(s.pt.Entry(page));
    assert r.empty[..r.n] == s.empty[..s.n] + [x];
    assert forall i: nat :: IsFree(r, i) <==> IsFree(s, i) || i == x;
    forall p: PageNo ensures PageOk(r, p) && !Holds(r, p, TLBN) {
      assert PageOk(s, p);
      PageRoundTrip(p); PageRoundTrip(page);
    }
    forall i | 0 <= i < TLBN ensures SlotOk(r, i) {
      assert SlotOk(s, i);
      if i != x && !IsFree(s, i) {
        OtherSlotKept(s, r, page, x, i);
      }
    }
  }

  /** The pair's other page is cached: the new page joins it in the same slot. */
  lemma JoinCoherent(s: State, page: PageNo)
    requires Coherent(s) && s.pt.HasTable(page) && !Cached(s.pt.Entry(page)) && Cached(s.pt.Entry(Pair(page)))
    ensures Coherent(InsertPage(s, page))
  {
    hide Pair, Half, EntryHi, PageOfHi, Cached, TlbIdx, EntryLo, Recache, Mapped, Pdx, Aligned;
    PairFacts(page); PageRoundTrip(page);
    CachedSlot(s, Pair(page));
    assert PageOk(s, Pair(page));
    var x := TlbIdx(s.pt.Entry(Pair(page)));
    var r := InsertPage(s, page);
    RecacheFacts(s.pt.Entry(page), x);
    forall p: PageNo ensures PageOk(r, p) && !Holds(r, p, TLBN) {
      assert PageOk(s, p);
    }
    forall i | 0 <= i < TLBN ensures SlotOk(r, i) {
      assert SlotOk(s, i);
      if i != x && !IsFree(s, i) {
        OtherSlotKept(s, r, page, x, i);
      }
    }
  }

  /** A page neither cached nor paired with a cached page gets a slot of its own. */
  lemma FreshCoherent(s: State, page: PageNo)
    requires Coherent(s) && s.pt.HasTable(page) && !Cached(s.pt.Entry(page)) && !Cached(s.pt.Entry(Pair(page)))
    requires Mapped(EntryHi(page))
    ensures Coherent(InsertPage(s, page))
  {
    hide Pair, Half, EntryHi, PageOfHi, Cached, TlbIdx, EntryLo, Uncache, Recache, Mapped, Pdx, Aligned, DropBit, Ppn;
    TakeSlotCoherent(s);
    var (s1, x) := TakeSlot(s);
    if s.n == 0 {
      assert SlotOk(s, s.ptr);
      var hi := s.hi[s.ptr];
      DropPair(s.pt, Ppn(hi), page);
      DropPair(s.pt, Ppn(hi), Pair(page));
      UncacheFacts(s.pt.Entry(page));
      PairFacts(page);
      UncacheFacts(s.pt.Entry(Pair(page)));
    }
    FillSlotCoherent(s1, x, page);
  }

  /** tlb_miss_handler's refill keeps coherence, on every page the emulator can miss on. */
  lemma InsertPageCoherent(s: State, page: PageNo)
    requires Coherent(s) && s.pt.HasTable(page) && !Cached(s.pt.Entry(page)) && Mapped(EntryHi(page))
    ensures Coherent(InsertPage(s, page))
  {
    hide Pair, EntryHi, Cached, InsertPage, Mapped;
    if Cached(s.pt.Entry(Pair(page))) {
      JoinCoherent(s, page);
    } else {
      FreshCoherent(s, page);
    }
  }

  // --- the order of evictions ---

  /** The slots that k calls of tlb_get_empty in a row hand out */
  function Slots(s: State, k: nat): (r: seq<nat>)
    requires s.Shape()
    ensures |r| == k
    decreases k
  {
    if k == 0 then [] else [TakeSlot(s).1] + Slots(TakeSlot(s).0, k - 1)
  }

  lemma TakeInTurn(s: State)
    requires s.Shape() && s.n == 0
    ensures TakeSlot(s).1 == s.ptr && TakeSlot(s).0.ptr == (s.ptr + 1) % TLBN && TakeSlot(s).0.n == 0
  {}

  lemma NextInTurn(ptr: nat, j: nat)
    requires ptr < TLBN && j > 0
    ensures ((ptr + 1) % TLBN + (j - 1)) % TLBN == (ptr + j) % TLBN
  {}

  lemma {:induction false} SlotsInTurn(s: State, k: nat, j: nat)
    requires s.Shape() && s.n == 0 && j < k
    ensures Slots(s, k)[j] == (s.ptr + j) % TLBN
    decreases k
  {
    TakeInTurn(s);
    hide TakeSlot;
    if j > 0 {
      SlotsInTurn(TakeSlot(s).0, k - 1, j - 1);
      NextInTurn(s.ptr, j);
    }
  }

  /** Free slots are used up first; after that every slot is evicted once before any is evicted again. */
  lemma EvictionsInTurn(s: State, k: nat)
    requires s.Shape() && k <= TLBN
    ensures s.n > 0 && k > 0 ==> Slots(s, k)[0] in s.empty[..s.n] && TakeSlot(s).0.pt == s.pt
    ensures s.n == 0 ==> Distinct(Slots(s, k))
  {
    if s.n > 0 && k > 0 {
      assert s.empty[..s.n][s.n - 1] == s.empty[s.n - 1];
    } else if s.n == 0 {
      hide Slots;
      forall a, b | 0 <= a < b < k ensures Slots(s, k)[a] != Slots(s, k)[b] {
        SlotsInTurn(s, k, a);
        SlotsInTurn(s, k, b);
        Apart(s.ptr, a, b);
      }
    }
  }

  lemma Apart(ptr: nat, a: nat, b: nat)
    requires ptr < TLBN && a < b < TLBN
    ensures (ptr + a) % TLBN != (ptr + b) % TLBN
  {}
}
