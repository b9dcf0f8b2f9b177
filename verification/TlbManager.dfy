/** tlb.c and the TLB half of mmu.h as they run: fixed arrays updated in place, specified by TlbModel. */
module TlbManager {
  import opened PageWords
  import opened TlbModel
  import TlbSession

  class Manager {
    // the emulator's tlb_key_ and tlb_data_
    const key: array<Word>
    const lo0: array<Word>
    const lo1: array<Word>
    // the kernel's tlb_algo_empty, tlb_algo_n, tlb_algo_hi, tlb_algo_ptr
    const empty: array<nat>
    var n: nat
    const hi: array<Word>
    var ptr: nat
    // the page table cur_pgdir points to
    var pt: PageTable

    ghost predicate Valid()
      reads this, empty
    {
      && key.Length == lo0.Length == lo1.Length == hi.Length == empty.Length == TLBN
      && key != lo0 && key != lo1 && key != hi && lo0 != lo1 && lo0 != hi && lo1 != hi
      && n <= TLBN && (forall k | 0 <= k < n :: empty[k] < TLBN) && ptr < TLBN
    }

    ghost function Abs(): (s: State)
      reads this, key, lo0, lo1, empty, hi
      requires Valid()
      ensures s.Shape()
    {
      State(Tlb(key[..], lo0[..], lo1[..]), empty[..], n, hi[..], ptr, pt)
    }

    constructor (pt: PageTable)
      ensures Valid() && this.pt == pt && Abs() == LoadPgdir(Abs(), pt)
      ensures fresh(key) && fresh(lo0) && fresh(lo1) && fresh(empty) && fresh(hi)
    {
      key := new Word[TLBN](_ => ENTRYHI_INVALID);
      lo0 := new Word[TLBN](_ => ENTRYLO_INVALID);
      lo1 := new Word[TLBN](_ => ENTRYLO_INVALID);
      empty := new nat[TLBN](i => i);
      hi := new Word[TLBN](_ => 0);
      n, ptr := TLBN, 0;
      this.pt := pt;
    }

    /** tlb_write: four mtc0 and a tlbwi */
    method Write(i: nat, h: Word, l0: Word, l1: Word)
      requires Valid() && i < TLBN
      modifies key, lo0, lo1
      ensures Valid() && Abs() == old(Abs()).(tlb := old(Abs()).tlb.Write(i, h, l0, l1))
    {
      key[i], lo0[i], lo1[i] := h, l0, l1;
    }

    /** load_pgdir: switch cur_pgdir, then tlb_init and tlb_init_callback */
    method Load(pgdir: PageTable)
      requires Valid()
      modifies this, key, lo0, lo1, empty
      ensures Valid() && Abs() == LoadPgdir(old(Abs()), pgdir)
    {
      pt := pgdir;
      for i := 0 to TLBN
        invariant Valid() && pt == pgdir && n == old(n) && ptr == old(ptr)
        invariant hi[..] == old(hi[..])
        invariant forall k | 0 <= k < i ::
            key[k] == ENTRYHI_INVALID && lo0[k] == ENTRYLO_INVALID && lo1[k] == ENTRYLO_INVALID
      {
        Write(i, ENTRYHI_INVALID, ENTRYLO_INVALID, ENTRYLO_INVALID);
      }
      n := 0;
      for i := 0 to TLBN
        invariant Valid() && pt == pgdir && ptr == old(ptr)
        invariant hi[..] == old(hi[..])
        invariant forall k | 0 <= k < TLBN ::
            key[k] == ENTRYHI_INVALID && lo0[k] == ENTRYLO_INVALID && lo1[k] == ENTRYLO_INVALID
        invariant forall k | 0 <= k < i :: empty[k] == k
      {
        empty[i] := i;
      }
      n := TLBN;
    }

    /** tlb_get_empty */
    method GetEmpty(h: Word) returns (i: nat)
      requires Valid()
      modifies this, hi
      ensures i < TLBN && Valid()
      ensures var (s, x) := TakeSlot(old(Abs())); i == x && Abs() == s.(hi := s.hi[x := h])
    {
      hide Pair, Uncache, Ppn, Pdx;
      if n > 0 {
        n := n - 1;
        i := empty[n];
      } else {
        i := ptr;
        ptr := (ptr + 1) % TLBN;
        var page := Ppn(hi[i]);
        pt := DropBit(pt, page);
        pt := DropBit(pt, Pair(page));
      }
      hi[i] := h;
    }

    /** tlb_miss_handler once the page is present */
    method Refill(page: PageNo)
      requires Valid()
      modifies this, key, lo0, lo1, hi
      ensures Valid() && Abs() == InsertPage(old(Abs()), page)
    {
      hide Pair, Half, EntryHi, Cached, Recache, Pdx, DropBit, Frame, Writable, Present;
      var pair := Pair(page);
      var i: nat;
      var mine := EntryLo(pt.Entry(page));
      var other := ENTRYLO_INVALID;
      if pt.HasTable(pair) && Cached(pt.Entry(pair)) {
        other := EntryLo(pt.Entry(pair));
        i := TlbIdx(pt.Entry(pair));
      } else {
        TlbSession.TakeSlotEntries(Abs(), page);  // eviction cannot change what ENTRYLO reads
        i := GetEmpty(EntryHi(page));
      }
      if Half(page) {
        Write(i, EntryHi(page), other, mine);
      } else {
        Write(i, EntryHi(page), mine, other);
      }
      pt := pt.Set(page, Recache(pt.Entry(page), i));
    }

    /** tlb_invalidate */
    method Invalidate(page: PageNo)
      requires Valid() && (n < TLBN || !pt.HasTable(page) || !Cached(pt.Entry(page)))
      modifies this, key, lo0, lo1, empty
      ensures Valid() && Abs() == TlbModel.Invalidate(old(Abs()), page)
    {
      hide Pair, Half, EntryHi, Cached, EntryLo, Uncache, Pdx;
      if !pt.HasTable(page) || !Cached(pt.Entry(page)) {
        return;
      }
      var i := TlbIdx(pt.Entry(page));
      var pair := Pair(page);
      if pt.HasTable(pair) && Cached(pt.Entry(pair)) {
        var other := EntryLo(pt.Entry(pair));
        if Half(page) {
          Write(i, EntryHi(page), other, ENTRYLO_INVALID);
        } else {
          Write(i, EntryHi(page), ENTRYLO_INVALID, other);
        }
      } else {
        empty[n] := i;
        n := n + 1;
        Write(i, ENTRYHI_INVALID, ENTRYLO_INVALID, ENTRYLO_INVALID);
      }
      pt := pt.Set(page, Uncache(pt.Entry(page)));
    }

    /** addr_translate on a mapped address: the first slot that selects it decides */
    method AddrTranslate(va: Word, write: bool) returns (look: Lookup)
      requires Valid()
      ensures look == Translate(Abs().tlb, va, write)
    {
      hide Selects, LoValid, LoDirty, LoTarget, Half, Ppn;
      var i := 0;
      while i < TLBN
        invariant 0 <= i <= TLBN
        invariant FirstMatch(key[..], va, 0) == FirstMatch(key[..], va, i)
      {
        if Selects(key[i], va) {
          var lo := if Half(Ppn(va)) then lo1[i] else lo0[i];
          if !LoValid(lo) {
            return Lookup.Invalid;
          }
          if !LoDirty(lo) && write {
            return Lookup.Modified;
          }
          return Hit(LoTarget(lo, va));
        }
        i := i + 1;
      }
      return Lookup.Refill;
    }
  }
}
