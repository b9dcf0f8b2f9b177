/**
  Bit layout of addresses, page-table entries and TLB words (kern/mm/mmu.h, kern/mm/tlb.h).
  A word is the number it stands for: a field is read with / and %, and fields on separate bits are joined with +.

      PTE      frame:20 | TLB index:4 | TLB_P:1 | reserved:4 | PTE_U | PTE_W | PTE_P
      EntryLo  PFN:26 | C:3 | D:1 | V:1 | G:1
  */
module PageWords {

  type Word = w: int | 0 <= w < 0x1_0000_0000 witness 0

  /** A virtual page number */
  type PageNo = p: int | 0 <= p < 0x10_0000 witness 0

  const TLBN := 16

  const ENTRYLO_INVALID: Word := 0x00000000
  const ENTRYHI_INVALID: Word := 0x80000000

  /** PPN(la) */
  function Ppn(la: Word): PageNo { la / 0x1000 }

  /** PDX(la), of the page holding la */
  function Pdx(page: PageNo): nat { page / 0x400 }

  /** TLBPAIR: the other page of the pair that shares a TLB slot */
  function Pair(page: PageNo): PageNo { if Half(page) then page - 1 else page + 1 }

  /** TLBLO: which half of the slot a page occupies */
  predicate Half(page: PageNo) { page % 2 == 1 }

  /** `la & 0xffffe000`, the EntryHi word of a page */
  function EntryHi(page: PageNo): Word { page / 2 * 0x2000 }

  /** An EntryHi word with no bits below VPN2 */
  predicate Aligned(hi: Word) { hi % 0x2000 == 0 }

  /** Page of half `half` of the pair whose EntryHi is `hi` */
  function PageOfHi(hi: Word, half: bool): PageNo
    requires Aligned(hi)
  {
    if half then hi / 0x1000 + 1 else hi / 0x1000
  }

  /** The seven flag bits of an entry, and everything above them */
  function Flags(pte: Word): (f: nat)
    ensures f < 0x80
  {
    pte % 0x80
  }

  function High(pte: Word): nat { pte / 0x80 }

  predicate Present(pte: Word) { Flags(pte) % 2 == 1 }

  predicate Writable(pte: Word) { Flags(pte) / 2 % 2 == 1 }

  /** The TLB_P bit */
  predicate Cached(pte: Word) { High(pte) % 2 == 1 }

  function TlbIdx(pte: Word): (i: nat)
    ensures i < TLBN
  {
    High(pte) / 2 % TLBN
  }

  function Frame(pte: Word): PageNo { High(pte) / 0x20 }

  /** ENTRYLO(pte): the frame, C = 2, D = PTE_W, V = G = 1 */
  function EntryLo(pte: Word): Word {
    Frame(pte) * 0x40 + 2 * 8 + (if Writable(pte) then 4 else 0) + 3
  }

  /** `pte & ~TLB_P` */
  function Uncache(pte: Word): Word { if Cached(pte) then pte - 0x80 else pte }

  /** `(pte & 0xfffff0ff) | (idx << 8) | TLB_P` */
  function Recache(pte: Word, idx: nat): Word
    requires idx < TLBN
  {
    Frame(pte) * 0x1000 + idx * 0x100 + 0x80 + Flags(pte)
  }

  /** Physical address a translation through `pte` yields for `va` */
  function Target(pte: Word, va: Word): Word { Frame(pte) * 0x1000 + va % 0x1000 }

  // What the emulator reads out of an EntryLo word (src/mmu.h).

  predicate LoValid(lo: Word) { lo / 2 % 2 == 1 }

  predicate LoDirty(lo: Word) { lo / 4 % 2 == 1 }

  /** `(lo << 6 & 0xfffff000) | (va & 0xfff)` in 32 bits */
  function LoTarget(lo: Word, va: Word): Word { lo * 0x40 % 0x1_0000_0000 / 0x1000 * 0x1000 + va % 0x1000 }

  /** A slot key selects an address when their VPN2 fields agree. */
  predicate Selects(key: Word, va: Word) { key / 0x2000 == va / 0x2000 }

  /** Addresses the TLB translates: everything outside kseg0 and kseg1 */
  predicate Mapped(va: Word) { !(0x80000000 <= va < 0xc0000000) }

  // --- what the two halves of the system need of the layout ---

  lemma PairFacts(page: PageNo)
    ensures Pair(Pair(page)) == page && Pair(page) != page
    ensures Pdx(Pair(page)) == Pdx(page)
    ensures EntryHi(Pair(page)) == EntryHi(page)
    ensures Half(Pair(page)) == !Half(page)
  {
    var q := page / 2;
    assert page == 2 * q || page == 2 * q + 1;
    assert Pair(page) / 2 == q;
    assert page / 0x400 == q / 0x200 && Pair(page) / 0x400 == q / 0x200;
  }

  lemma PageRoundTrip(page: PageNo)
    ensures Aligned(EntryHi(page))
    ensures PageOfHi(EntryHi(page), Half(page)) == page
    ensures PageOfHi(EntryHi(page), !Half(page)) == Pair(page)
  {}

  lemma HiRoundTrip(hi: Word, half: bool)
    requires Aligned(hi)
    ensures EntryHi(PageOfHi(hi, half)) == hi
    ensures Half(PageOfHi(hi, half)) == half
    ensures Pair(PageOfHi(hi, half)) == PageOfHi(hi, !half)
    ensures Ppn(hi) == PageOfHi(hi, false)
  {}

  lemma AddressFacts(va: Word)
    ensures Mapped(va) <==> Mapped(EntryHi(Ppn(va)))
    ensures Selects(EntryHi(Ppn(va)), va)
  {
    var q, r := va / 0x2000, va % 0x2000;
    assert va == q * 0x2000 + r;
    assert va / 0x1000 == q * 2 + r / 0x1000;
    assert EntryHi(Ppn(va)) == q * 0x2000;
  }

  /**
    A key selects an address only when it is the address's own EntryHi, and the invalid key selects no mapped address.
    */
  lemma KeyMatches(hi: Word, va: Word)
    ensures Aligned(hi) && Selects(hi, va) ==> hi == EntryHi(Ppn(va))
    ensures Mapped(va) ==> !Selects(ENTRYHI_INVALID, va)
  {
    var q, r := va / 0x2000, va % 0x2000;
    assert va / 0x1000 == q * 2 + r / 0x1000;
  }

  /** An entry put together from its high part and its flags has that high part and those flags. */
  lemma Join(high: nat, flags: nat)
    requires high < 0x200_0000 && flags < 0x80
    ensures var pte: Word := high * 0x80 + flags; High(pte) == high && Flags(pte) == flags
  {}

  lemma UncacheFacts(pte: Word)
    ensures !Cached(Uncache(pte))
    ensures Present(Uncache(pte)) == Present(pte) && Writable(Uncache(pte)) == Writable(pte)
    ensures Frame(Uncache(pte)) == Frame(pte)
  {
    hide High, Flags;
    if Cached(pte) {
      Split(pte);
      Join(High(pte) - 1, Flags(pte));
      EvenBelow(High(pte));
    }
  }

  lemma Split(pte: Word)
    ensures pte == High(pte) * 0x80 + Flags(pte) && High(pte) < 0x200_0000 && Flags(pte) < 0x80
  {}

  lemma EvenBelow(h: nat)
    requires h % 2 == 1
    ensures (h - 1) % 2 == 0 && (h - 1) / 0x20 == h / 0x20
  {
    assert h == 2 * (h / 2) + 1 && h / 0x20 == h / 2 / 0x10;
  }

  lemma RecacheFacts(pte: Word, idx: nat)
    requires idx < TLBN
    ensures Cached(Recache(pte, idx)) && TlbIdx(Recache(pte, idx)) == idx
    ensures Present(Recache(pte, idx)) == Present(pte) && Writable(Recache(pte, idx)) == Writable(pte)
    ensures Frame(Recache(pte, idx)) == Frame(pte) && EntryLo(Recache(pte, idx)) == EntryLo(pte)
  {
    hide High, Flags;
    Join(Frame(pte) * 0x20 + idx * 2 + 1, Flags(pte));
    HighFields(Frame(pte), idx);
  }

  lemma HighFields(frame: PageNo, idx: nat)
    requires idx < TLBN
    ensures var high := frame * 0x20 + idx * 2 + 1;
      high % 2 == 1 && high / 2 % TLBN == idx && high / 0x20 == frame
  {
    assert (frame * 0x20 + idx * 2 + 1) / 2 == frame * TLBN + idx;
  }

  /** The emulator decodes from an EntryLo word what ENTRYLO put there. */
  lemma EntryLoFacts(pte: Word, va: Word)
    ensures EntryLo(pte) != ENTRYLO_INVALID && LoValid(EntryLo(pte))
    ensures LoDirty(EntryLo(pte)) <==> Writable(pte)
    ensures LoTarget(EntryLo(pte), va) == Target(pte, va)
  {
    hide Flags, High, Frame, Writable;
    LoFields(Frame(pte), if Writable(pte) then 1 else 0);
  }

  lemma LoFields(f: int, w: int)
    requires 0 <= f < 0x10_0000 && 0 <= w <= 1
    ensures var lo := f * 0x40 + 2 * 8 + 4 * w + 3; lo / 2 % 2 == 1 && lo / 4 % 2 == w
    ensures (f * 0x40 + 2 * 8 + 4 * w + 3) * 0x40 % 0x1_0000_0000 / 0x1000 * 0x1000 == f * 0x1000
  {
    var lo := f * 0x40 + 2 * 8 + 4 * w + 3;
    assert lo / 2 == f * 0x20 + 9 + 2 * w;
    assert lo / 4 == f * 0x10 + 4 + w;
    assert lo * 0x40 == f * 0x1000 + (19 + 4 * w) * 0x40;
  }

  lemma InvalidFacts()
    ensures !LoValid(ENTRYLO_INVALID) && !Cached(0) && !Present(0)
  {}
}
