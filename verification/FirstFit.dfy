/** The first-fit page allocator of kern/mm/default_pmm.c. First the free list as a value. */
module FreeBlocks {
  import opened Counting

  /** A free block: n pages from page number base on. */
  datatype Block = Block(base: nat, n: nat) {
    function End(): nat { base + n }

    predicate Holds(p: nat) { base <= p < End() }
  }

  /** Sorted by address, disjoint, not empty, and maximally coalesced: between two blocks there is a page in use. */
  predicate Coalesced(l: seq<Block>) {
    && (forall i | 0 <= i < |l| :: l[i].n > 0)
    && (forall i, j | 0 <= i < j < |l| :: l[i].End() < l[j].base)
  }

  ghost predicate IsFree(l: seq<Block>, p: nat) {
    exists i :: 0 <= i < |l| && l[i].Holds(p)
  }

  function Total(l: seq<Block>): nat {
    if l == [] then 0 else l[0].n + Total(l[1..])
  }

  lemma {:induction false} TotalSplit(a: seq<Block>, b: seq<Block>)
    ensures Total(a + b) == Total(a) + Total(b)
  {
    if a == [] {
      assert a + b == b;
    } else {
      assert (a + b)[1..] == a[1..] + b;
      TotalSplit(a[1..], b);
    }
  }

  lemma TotalOne(b: Block)
    ensures Total([b]) == b.n
  {
    assert [b][1..] == [];
  }

  lemma TotalInsert(l: seq<Block>, i: nat, b: Block)
    requires i <= |l|
    ensures Total(Inserted(l, i, b)) == Total(l) + b.n
  {
    assert l == l[..i] + l[i..];
    TotalSplit(l[..i], l[i..]);
    TotalSplit(l[..i] + [b], l[i..]);
    TotalSplit(l[..i], [b]);
    TotalOne(b);
  }

  lemma TotalRemove(l: seq<Block>, i: nat)
    requires i < |l|
    ensures Total(Removed(l, i)) == Total(l) - l[i].n
  {
    RemoveInserted(l, i);
    TotalInsert(Removed(l, i), i, l[i]);
  }

  /** The free list is a function of the set of free pages. */
  lemma {:induction false} UniqueList(a: seq<Block>, b: seq<Block>)
    requires Coalesced(a) && Coalesced(b)
    requires forall p: nat :: IsFree(a, p) <==> IsFree(b, p)
    ensures a == b
    decreases |a|
  {
    if a == [] || b == [] {
      if a != [] {
        NonEmptyHasPage(a);
      }
      if b != [] {
        NonEmptyHasPage(b);
      }
    } else {
      SameFirst(a, b);
      SameFirst(b, a);
      assert a[0] == b[0];
      forall p: nat ensures IsFree(a[1..], p) <==> IsFree(b[1..], p) {
        TailPages(a, p);
        TailPages(b, p);
        assert IsFree(a, p) <==> IsFree(b, p);
      }
      UniqueList(a[1..], b[1..]);
    }
  }

  lemma NonEmptyHasPage(a: seq<Block>)
    requires Coalesced(a) && a != []
    ensures IsFree(a, a[0].base) && !IsFree(a, a[0].End())
    ensures forall p: nat | a[0].Holds(p) :: IsFree(a, p)
    ensures forall p: nat | IsFree(a, p) :: a[0].base <= p
  {
    assert a[0].Holds(a[0].base);
  }

  lemma SameFirst(a: seq<Block>, b: seq<Block>)
    requires Coalesced(a) && Coalesced(b) && a != [] && b != []
    requires forall p: nat :: IsFree(a, p) <==> IsFree(b, p)
    ensures a[0].base <= b[0].base && (a[0].base == b[0].base ==> a[0].n <= b[0].n)
  {
    NonEmptyHasPage(a);
    NonEmptyHasPage(b);
    assert IsFree(b, b[0].base);
    assert !IsFree(b, b[0].End());
  }

  lemma TailPages(a: seq<Block>, p: nat)
    requires Coalesced(a) && a != []
    ensures IsFree(a[1..], p) <==> IsFree(a, p) && !a[0].Holds(p)
  {
    var t := a[1..];
    if IsFree(t, p) {
      var i :| 0 <= i < |t| && t[i].Holds(p);
      assert a[i + 1].Holds(p);
    }
    if IsFree(a, p) && !a[0].Holds(p) {
      var i :| 0 <= i < |a| && a[i].Holds(p);
      assert t[i - 1].Holds(p);
    }
  }

  /** Carving n pages off the front of block i, as default_alloc_pages does. */
  function Carve(l: seq<Block>, i: nat, n: nat): seq<Block>
    requires i < |l| && 0 < n <= l[i].n
  {
    if l[i].n > n then l[i := Block(l[i].base + n, l[i].n - n)] else Removed(l, i)
  }

  lemma FrontIsFree(l: seq<Block>, i: nat, n: nat)
    requires i < |l| && n <= l[i].n
    ensures forall p: nat | l[i].base <= p < l[i].base + n :: IsFree(l, p)
  {
    forall p: nat | l[i].base <= p < l[i].base + n ensures IsFree(l, p) {
      assert l[i].Holds(p);
    }
  }

  lemma CarveHeads(l: seq<Block>, i: nat, n: nat, limit: nat)
    requires Coalesced(l) && i < |l| && 0 < n <= l[i].n && forall j | 0 <= j < |l| :: l[j].End() <= limit
    ensures forall j | 0 <= j < |Carve(l, i, n)| :: Carve(l, i, n)[j].End() <= limit
    ensures forall j | 0 <= j < |l| :: l[j].base != l[i].base + n
    ensures Carve(l, i, n) ==
              if l[i].n > n then Inserted(Removed(l, i), i, Block(l[i].base + n, l[i].n - n)) else Removed(l, i)
    ensures Total(l) >= n
  {
    TotalRemove(l, i);
    hide Removed, Inserted, Total;
    ReplaceIsCarve(l, i, Block(l[i].base + n, l[i].n - n));
  }

  lemma ReplaceIsCarve(l: seq<Block>, i: nat, b: Block)
    requires i < |l|
    ensures l[i := b] == Inserted(Removed(l, i), i, b)
  {
    hide Removed, Inserted;
  }

  /** A block that touches no block of the list */
  predicate Apart(l: seq<Block>, b: Block) {
    forall i | 0 <= i < |l| :: l[i].End() < b.base || b.End() < l[i].base
  }

  /** A block that overlaps no block of the list, though it may touch one */
  predicate Beside(l: seq<Block>, b: Block) {
    forall i | 0 <= i < |l| :: l[i].End() <= b.base || b.End() <= l[i].base
  }

  lemma BesideFrom(l: seq<Block>, b: Block, k: nat)
    requires Beside(l, b) && Coalesced(l) && k < |l| && b.n > 0
    ensures if b.base < l[k].base then b.End() <= l[k].base else l[k].End() <= b.base
  {}

  lemma ApartBeside(l: seq<Block>, b: Block)
    requires Apart(l, b)
    ensures Beside(l, b)
  {}

  lemma NotFreeBeside(l: seq<Block>, b: Block)
    requires Coalesced(l) && b.n > 0 && forall p: nat | b.Holds(p) :: !IsFree(l, p)
    ensures Beside(l, b)
  {
    forall i | 0 <= i < |l| ensures l[i].End() <= b.base || b.End() <= l[i].base {
      assert b.Holds(b.base) && l[i].Holds(l[i].base) && IsFree(l, l[i].base);
    }
  }

  lemma InAddressOrder(l: seq<Block>, k: nat)
    requires Coalesced(l) && k < |l|
    ensures forall i | k <= i < |l| :: l[k].base <= l[i].base
    ensures forall i | 0 <= i <= k :: l[i].base <= l[k].base
  {}

  /**
    Inserting a block in address order adds its pages; the list stays coalesced if the block touches none of the others.
    */
  lemma InsertFacts(l: seq<Block>, k: nat, b: Block)
    requires Coalesced(l) && k <= |l| && b.n > 0
    requires (forall i | 0 <= i < k :: l[i].base < b.base) && (forall i | k <= i < |l| :: b.base < l[i].base)
    ensures (Apart(l, b) ==> Coalesced(Inserted(l, k, b))) && Total(Inserted(l, k, b)) == Total(l) + b.n
    ensures forall p: nat :: IsFree(Inserted(l, k, b), p) <==> IsFree(l, p) || b.Holds(p)
  {
    hide IsFree, Total, Inserted;
    TotalInsert(l, k, b);
    forall p: nat ensures IsFree(Inserted(l, k, b), p) <==> IsFree(l, p) || b.Holds(p) {
      InsertPage(l, k, b, p);
    }
  }

  /**
    Linking a block without merging, as default_init_memmap does, keeps the list coalesced exactly when it touches no
    entry.
    */
  lemma InsertCoalescedIff(l: seq<Block>, k: nat, b: Block)
    requires Coalesced(l) && k <= |l| && b.n > 0
    requires (forall i | 0 <= i < k :: l[i].base < b.base) && (forall i | k <= i < |l| :: b.base < l[i].base)
    ensures Coalesced(Inserted(l, k, b)) <==> Apart(l, b)
  {
    hide Inserted;
    var r := Inserted(l, k, b);
    if Coalesced(r) {
      forall i | 0 <= i < |l| ensures l[i].End() < b.base || b.End() < l[i].base {
        assert r[k] == b && r[if i < k then i else i + 1] == l[i];
      }
    } else if Apart(l, b) {
      InsertFacts(l, k, b);
    }
  }

  /** Linking page 1 behind a free page 0 leaves two entries where one would do. */
  lemma TouchingRegionNotMerged()
    ensures Coalesced([Block(0, 1)]) && !Coalesced(Inserted([Block(0, 1)], 1, Block(1, 1)))
  {
    var l := Inserted([Block(0, 1)], 1, Block(1, 1));
    assert l[0].End() == l[1].base;
  }

  lemma InsertPage(l: seq<Block>, k: nat, b: Block, p: nat)
    requires k <= |l|
    ensures IsFree(Inserted(l, k, b), p) <==> IsFree(l, p) || b.Holds(p)
  {
    hide Inserted;
    var r := Inserted(l, k, b);
    if IsFree(r, p) {
      var i :| 0 <= i < |r| && r[i].Holds(p);
      if i != k {
        assert l[if i < k then i else i - 1].Holds(p);
      }
    }
    if IsFree(l, p) {
      var i :| 0 <= i < |l| && l[i].Holds(p);
      assert r[if i < k then i else i + 1].Holds(p);
    }
    if b.Holds(p) {
      assert r[k].Holds(p);
    }
  }

  lemma RemoveFacts(l: seq<Block>, i: nat)
    requires Coalesced(l) && i < |l|
    ensures Coalesced(Removed(l, i)) && Total(Removed(l, i)) == Total(l) - l[i].n
    ensures forall p: nat :: IsFree(Removed(l, i), p) <==> IsFree(l, p) && !l[i].Holds(p)
    ensures Apart(Removed(l, i), l[i]) && forall p: nat | l[i].Holds(p) :: IsFree(l, p)
    ensures forall k | 0 <= k < |l| - 1 ::
              if k < i then Removed(l, i)[k].base < l[i].base else l[i].End() < Removed(l, i)[k].base
  {
    hide Total, Removed;
    TotalRemove(l, i);
    RemoveInserted(l, i);
    var r := Removed(l, i);
    assert Apart(r, l[i]);
    hide IsFree;
    forall p: nat ensures IsFree(r, p) <==> IsFree(l, p) && !l[i].Holds(p) {
      InsertPage(r, i, l[i], p);
      ApartPage(r, l[i], p);
    }
  }

  lemma ApartPage(l: seq<Block>, b: Block, p: nat)
    requires Apart(l, b)
    ensures !(IsFree(l, p) && b.Holds(p))
  {}

  lemma CarveFacts(l: seq<Block>, i: nat, n: nat)
    requires Coalesced(l) && i < |l| && 0 < n <= l[i].n
    ensures Coalesced(Carve(l, i, n)) && Total(Carve(l, i, n)) == Total(l) - n
    ensures forall p: nat :: IsFree(Carve(l, i, n), p) <==> IsFree(l, p) && !(l[i].base <= p < l[i].base + n)
  {
    hide IsFree, Total, Removed, Inserted, Coalesced;
    RemoveFacts(l, i);
    if l[i].n > n {
      var cut, rest := Removed(l, i), Block(l[i].base + n, l[i].n - n);
      assert Carve(l, i, n) == Inserted(cut, i, rest);
      InsertFacts(cut, i, rest);
    }
  }

  /**
    The merging loop of default_free_pages after k list entries: b is the block being built from `range` and the entries
    of l0 already taken off the list l; no entry before position k touches b.
    */
  ghost predicate Merging(l0: seq<Block>, range: Block, l: seq<Block>, b: Block, k: nat) {
    && Coalesced(l) && k <= |l| && b.n > 0
    && (forall i | 0 <= i < |l| :: l[i].End() <= b.base || b.End() <= l[i].base)
    && (forall i | 0 <= i < k :: l[i].End() != b.base && b.End() != l[i].base)
    && (forall p: nat :: IsFree(l, p) || b.Holds(p) <==> IsFree(l0, p) || range.Holds(p))
    && Total(l) + b.n == Total(l0) + range.n
  }

  lemma MergeStart(l: seq<Block>, b: Block)
    requires Coalesced(l) && b.n > 0 && (forall p: nat | b.Holds(p) :: !IsFree(l, p))
    ensures Merging(l, b, l, b, 0)
  {
    forall i | 0 <= i < |l| ensures l[i].End() <= b.base || b.End() <= l[i].base {
      if l[i].base <= b.base < l[i].End() {
        assert l[i].Holds(b.base) && b.Holds(b.base);
      }
      if b.Holds(l[i].base) {
        assert l[i].Holds(l[i].base);
      }
    }
  }

  /** Neither test of the loop body succeeds: the entry does not touch b. */
  lemma MergeSkip(l0: seq<Block>, range: Block, l: seq<Block>, b: Block, k: nat)
    requires Merging(l0, range, l, b, k) && k < |l| && b.End() != l[k].base && l[k].End() != b.base
    ensures Merging(l0, range, l, b, k + 1)
  {
    hide IsFree;
  }

  /** Taking an entry that ends where b begins, or begins where b ends, into b. */
  lemma MergeTake(l0: seq<Block>, range: Block, l: seq<Block>, b: Block, k: nat, b2: Block)
    requires Merging(l0, range, l, b, k) && k < |l| && b2.n == b.n + l[k].n
    requires (b.End() == l[k].base && b2.base == b.base) || (l[k].End() == b.base && b2.base == l[k].base)
    ensures Merging(l0, range, Removed(l, k), b2, k) && Coalesced(Removed(l, k))
  {
    hide IsFree, Total, Removed;
    RemoveFacts(l, k);
    var r := Removed(l, k);
    forall i | 0 <= i < |r|
      ensures r[i].End() <= b2.base || b2.End() <= r[i].base
      ensures i < k ==> r[i].End() != b2.base && b2.End() != r[i].base
    {
      assert r[i] == l[if i < k then i else i + 1];
    }
    hide Coalesced, Apart;
    forall p: nat ensures IsFree(r, p) || b2.Holds(p) <==> IsFree(l0, p) || range.Holds(p) {
      assert IsFree(l, p) || b.Holds(p) <==> IsFree(l0, p) || range.Holds(p);
    }
  }

  lemma MergeEnd(l0: seq<Block>, range: Block, l: seq<Block>, b: Block)
    requires Merging(l0, range, l, b, |l|)
    ensures Apart(l, b) && b.n > 0 && Total(l) + b.n == Total(l0) + range.n
    ensures forall p: nat :: IsFree(l, p) || b.Holds(p) <==> IsFree(l0, p) || range.Holds(p)
  {
    hide IsFree, Total, Coalesced;
  }

  /** Block k is the lowest one that has n pages, and base is its first page. */
  predicate LowestFit(l: seq<Block>, n: nat, k: nat, base: nat) {
    k < |l| && l[k].n >= n > 0 && l[k].base == base && forall i | 0 <= i < k :: l[i].n < n
  }

  lemma {:induction false} TotalBound(l: seq<Block>)
    ensures forall i | 0 <= i < |l| :: l[i].n <= Total(l)
  {
    forall i | 0 <= i < |l| ensures l[i].n <= Total(l) {
      TotalRemove(l, i);
    }
  }

  /** What alloc takes and free gives back, on the set of free pages. */
  ghost predicate Allocated(l: seq<Block>, r: seq<Block>, base: nat, n: nat) {
    Coalesced(r) && forall p: nat :: IsFree(r, p) <==> IsFree(l, p) && !(base <= p < base + n)
  }

  ghost predicate Freed(l: seq<Block>, r: seq<Block>, base: nat, n: nat) {
    Coalesced(r) && forall p: nat :: IsFree(r, p) <==> IsFree(l, p) || base <= p < base + n
  }

  /** Freeing exactly what was allocated restores the exact list, blocks and all. */
  lemma FreeUndoesAlloc(l: seq<Block>, l1: seq<Block>, l2: seq<Block>, base: nat, n: nat)
    requires Coalesced(l) && (forall p: nat | base <= p < base + n :: IsFree(l, p))
    requires Allocated(l, l1, base, n) && Freed(l1, l2, base, n)
    ensures l2 == l
  {
    forall p: nat ensures IsFree(l2, p) <==> IsFree(l, p) {
      assert IsFree(l1, p) <==> IsFree(l, p) && !(base <= p < base + n);
    }
    UniqueList(l2, l);
  }

  /** The order in which two allocations are given back does not matter. */
  lemma FreesCommute(l: seq<Block>, a1: seq<Block>, a2: seq<Block>, b1: seq<Block>, b2: seq<Block>,
                     x: nat, m: nat, y: nat, n: nat)
    requires Freed(l, a1, x, m) && Freed(a1, a2, y, n)
    requires Freed(l, b1, y, n) && Freed(b1, b2, x, m)
    ensures a2 == b2
  {
    forall p: nat ensures IsFree(a2, p) <==> IsFree(b2, p) {
      assert IsFree(a1, p) <==> IsFree(l, p) || x <= p < x + m;
      assert IsFree(b1, p) <==> IsFree(l, p) || y <= p < y + n;
    }
    UniqueList(a2, b2);
  }

  /** The blocks a list of head pages denotes, given the property field of each page */
  function ToBlocks(order: seq<nat>, property: seq<nat>): (l: seq<Block>)
    ensures |l| == |order|
    ensures forall i | 0 <= i < |l| :: l[i].base == order[i] && (order[i] < |property| ==> l[i].n == property[order[i]])
  {
    seq(|order|,
        i requires 0 <= i < |order| => Block(order[i], if order[i] < |property| then property[order[i]] else 0))
  }

  /** Writing the property field of a page that heads no block in the list changes no block. */
  lemma PropertyFrame(order: seq<nat>, before: seq<nat>, after: seq<nat>)
    requires |before| == |after|
    requires forall i | 0 <= i < |order| && order[i] < |before| :: before[order[i]] == after[order[i]]
    ensures ToBlocks(order, before) == ToBlocks(order, after)
  {}

  lemma BlocksInserted(order: seq<nat>, k: nat, base: nat, property: seq<nat>)
    requires k <= |order| && base < |property|
    ensures ToBlocks(Inserted(order, k, base), property) ==
              Inserted(ToBlocks(order, property), k, Block(base, property[base]))
  {
    hide Inserted;
  }

  lemma BlocksRemoved(order: seq<nat>, k: nat, property: seq<nat>)
    requires k < |order|
    ensures ToBlocks(Removed(order, k), property) == Removed(ToBlocks(order, property), k)
  {
    hide Removed;
  }
}

/** default_pmm.c itself: page descriptors in arrays, the free list threaded through them. */
module FirstFit {
  import opened Counting
  import opened FreeBlocks
  import opened LinkedList

  class Manager {
    const npage: nat
    const list: List
    const property: array<nat>
    const isHead: array<bool>    // PG_property
    const reserved: array<bool>  // PG_reserved
    var nrFree: nat

    ghost predicate Shape()
      reads list, list.next, list.prev
    {
      && list.Valid() && list.head == npage && list.next.Length == list.prev.Length == npage + 1
      && property.Length == npage && isHead.Length == npage && reserved.Length == npage
      && property != list.next && property != list.prev && isHead != reserved
    }

    ghost function Blocks(): (l: seq<Block>)
      reads list, property
    {
      ToBlocks(list.order, property[..])
    }

    /** The entries lie below npage; PageProperty is set exactly on their heads and on the pages still to be linked. */
    ghost predicate Threaded(pending: set<nat>)
      reads list, list.next, list.prev, property, isHead
    {
      && Shape()
      && (forall i | 0 <= i < |Blocks()| :: Blocks()[i].End() <= npage)
      && (forall p: nat | p < npage :: isHead[p] <==> p in list.order || p in pending)
    }

    ghost predicate Listed(pending: set<nat>)
      reads list, list.next, list.prev, property, isHead
    {
      Threaded(pending) && Coalesced(Blocks())
    }

    /**
      The free list is sorted, disjoint and coalesced; PageProperty is set exactly on its heads; nr_free is its total.
      */
    ghost predicate Valid()
      reads this, list, list.next, list.prev, property, isHead, reserved
    {
      && Listed({})
      && (forall p: nat | p < npage && reserved[p] :: !IsFree(Blocks(), p))
      && nrFree == Total(Blocks())
    }

    /** default_init, with every page still reserved */
    constructor (npage: nat)
      ensures Valid() && this.npage == npage && Blocks() == [] && (forall p: nat | p < npage :: reserved[p])
      ensures fresh(list) && fresh(list.next) && fresh(list.prev) && fresh(property) && fresh(isHead) && fresh(reserved)
    {
      this.npage := npage;
      list := new List(npage + 1, npage);
      property := new nat[npage](_ => 0);
      isHead := new bool[npage](_ => false);
      reserved := new bool[npage](_ => true);
      nrFree := 0;
    }

    /** A page that heads a free block is free; so a range without free pages has no head. */
    lemma HeadsAreFree(base: nat, n: nat)
      requires Shape() && Coalesced(Blocks()) && (forall p: nat | base <= p < base + n :: !IsFree(Blocks(), p))
      ensures forall i | 0 <= i < |list.order| :: !(base <= list.order[i] < base + n)
    {
      forall i | 0 <= i < |list.order| ensures !(base <= list.order[i] < base + n) {
        assert Blocks()[i].Holds(list.order[i]);
        assert IsFree(Blocks(), list.order[i]);
      }
    }

    /** The loop of default_list_add: the first entry above base, or the head */
    method FindAbove(base: nat, ghost l: seq<Block>) returns (le: nat, ghost k: nat)
      requires l == Blocks() && Shape() && base < npage && base !in list.order && Coalesced(l)
      requires property[base] > 0 && Beside(l, Block(base, property[base]))
      ensures k <= |list.order| && le == list.Ring()[k + 1]
      ensures (forall i | 0 <= i < k :: l[i].base < base) && (forall i | k <= i < |l| :: base < l[i].base)
    {
      hide Linked, Coalesced, Beside, ToBlocks;
      list.NextFacts(-1);
      le := list.next[list.head];
      k := 0;
      while le != list.head
        invariant k <= |list.order| && le == (if k < |list.order| then list.order[k] else list.head)
        invariant forall i | 0 <= i < k :: l[i].base < base
        decreases |list.order| - k
      {
        list.ValidFacts();
        list.NextFacts(k);
        BesideFrom(l, Block(base, property[base]), k);
        InAddressOrder(l, k);
        assert l[k].base == le != base;
        if base < le {
          assert base + property[base] <= le;
          break;
        } else {
          assert le + property[le] <= base;
        }
        le := list.next[le];
        k := k + 1;
      }
      list.ValidFacts();
    }

    /** default_list_add: link a block in address order; the list stays coalesced exactly when it touches no other */
    method ListAdd(base: nat)
      requires Listed({base}) && base !in list.order && base < npage && base + property[base] <= npage
      requires property[base] > 0 && Beside(Blocks(), Block(base, property[base]))
      modifies list, list.next, list.prev
      ensures Threaded({}) && Total(Blocks()) == Total(old(Blocks())) + property[base]
      ensures Coalesced(Blocks()) <==> Apart(old(Blocks()), Block(base, property[base]))
      ensures forall p: nat :: IsFree(Blocks(), p) <==> IsFree(old(Blocks()), p) || Block(base, property[base]).Holds(p)
    {
      hide Linked, IsFree, Total, Distinct, Coalesced, Apart, Beside, ToBlocks;
      ghost var l, order := Blocks(), list.order;
      var le, k := FindAbove(base, l);
      list.AddBefore(le, base, k);
      BlocksInserted(order, k, base, property[..]);
      hide Inserted;
      InsertFacts(l, k, Block(base, property[base]));
      InsertCoalescedIff(l, k, Block(base, property[base]));
      InsertedMembers(order, k, base);
    }

    /** The loop of default_init_memmap over the pages of the region */
    method ResetPages(base: nat, n: nat)
      requires base + n <= npage == property.Length == isHead.Length == reserved.Length && isHead != reserved
      requires forall p: nat | base <= p < base + n :: reserved[p]
      modifies property, isHead, reserved
      ensures forall p: nat | p < npage :: isHead[p] == (old(isHead[p]) && !(base <= p < base + n))
      ensures forall p: nat | p < npage :: reserved[p] == (old(reserved[p]) && !(base <= p < base + n))
      ensures forall p: nat | p < npage :: property[p] == (if base <= p < base + n then 0 else old(property[p]))
    {
      for p := base to base + n
        invariant forall q: nat | q < npage :: isHead[q] == (old(isHead[q]) && !(base <= q < p))
        invariant forall q: nat | q < npage :: reserved[q] == (old(reserved[q]) && !(base <= q < p))
        invariant forall q: nat | q < npage :: property[q] == (if base <= q < p then 0 else old(property[q]))
      {
        assert reserved[p];
        reserved[p], isHead[p], property[p] := false, false, 0;
      }
    }

    /** default_init_memmap up to the linking: the region is one pending block */
    method PrepareRegion(base: nat, n: nat)
      requires Listed({}) && n > 0 && base + n <= npage
      requires forall p: nat | base <= p < base + n :: reserved[p] && !IsFree(Blocks(), p)
      modifies property, isHead, reserved
      ensures Listed({base}) && Blocks() == old(Blocks()) && base !in list.order && property[base] == n
      ensures forall p: nat | p < npage :: reserved[p] == (old(reserved[p]) && !(base <= p < base + n))
    {
      ghost var l := Blocks();
      HeadsAreFree(base, n);
      hide Linked, Coalesced, IsFree, Total, ToBlocks;
      ResetPages(base, n);
      property[base] := n;
      isHead[base] := true;
      assert Blocks() == l by {
        PropertyFrame(list.order, old(property[..]), property[..]);
      }
    }

    lemma RegionBeside(base: nat, n: nat)
      requires Valid() && n > 0 && base + n <= npage && forall p: nat | base <= p < base + n :: reserved[p]
      ensures Beside(Blocks(), Block(base, n))
    {
      hide Linked, ToBlocks, Total;
      NotFreeBeside(Blocks(), Block(base, n));
    }

    /**
      default_init_memmap: a reserved region becomes free. It is linked without merging, so the invariant survives
      exactly when the region touches no entry (page_init hands over one region, to an empty list).
      */
    method InitMemmap(base: nat, n: nat)
      requires Valid() && n > 0 && base + n <= npage && forall p: nat | base <= p < base + n :: reserved[p]
      modifies this, list, list.next, list.prev, property, isHead, reserved
      ensures Threaded({}) && nrFree == Total(Blocks())
      ensures Valid() <==> Apart(old(Blocks()), Block(base, n))
      ensures forall p: nat :: IsFree(Blocks(), p) <==> IsFree(old(Blocks()), p) || base <= p < base + n
      ensures forall p: nat | p < npage :: reserved[p] == (old(reserved[p]) && !(base <= p < base + n))
    {
      hide Linked, Coalesced, IsFree, Apart, Beside, Total, ToBlocks, Blocks;
      RegionBeside(base, n);
      PrepareRegion(base, n);
      nrFree := nrFree + n;
      ListAdd(base);
    }

    /** The loop of default_alloc_pages: the first entry of at least n pages, or the head */
    method FindFit(n: nat, ghost l: seq<Block>) returns (le: nat, ghost k: nat)
      requires l == Blocks() && Shape()
      ensures k <= |l| && forall i | 0 <= i < k :: l[i].n < n
      ensures if k < |l| then le == list.order[k] && l[k].n >= n else le == list.head
    {
      hide Linked, ToBlocks;
      list.NextFacts(-1);
      le := list.next[list.head];
      k := 0;
      while le != list.head
        invariant k <= |list.order| && le == (if k < |list.order| then list.order[k] else list.head)
        invariant forall i | 0 <= i < k :: l[i].n < n
        decreases |list.order| - k
      {
        list.ValidFacts();
        list.NextFacts(k);
        assert l[k].base == le < npage;
        if property[le] >= n {
          break;
        }
        le := list.next[le];
        k := k + 1;
      }
      list.ValidFacts();
    }

    /**
      default_alloc_pages: the first n pages of the lowest block that has n pages, or nothing when no block has that
      many.
      */
    method AllocPages(n: nat) returns (page: Option<nat>)
      requires Valid() && n > 0
      modifies this, list, list.next, list.prev, property, isHead
      ensures Valid()
      ensures page.None? <==> forall i | 0 <= i < |old(Blocks())| :: old(Blocks())[i].n < n
      ensures page.None? ==> Blocks() == old(Blocks())
      ensures page.Some? ==>
                exists k: nat :: LowestFit(old(Blocks()), n, k, page.value) && Blocks() == Carve(old(Blocks()), k, n)
      ensures page.Some? ==> Allocated(old(Blocks()), Blocks(), page.value, n)
      ensures page.Some? ==> page.value + n <= npage
      ensures page.Some? ==>
                forall p: nat | page.value <= p < page.value + n :: IsFree(old(Blocks()), p) && !reserved[p]
    {
      hide Linked, ToBlocks, Carve, Total, IsFree, Coalesced;
      ghost var l := Blocks();
      if n > nrFree {
        TotalBound(l);
        return None;
      }
      var le, k := FindFit(n, l);
      if le == list.head {
        list.ValidFacts();
        return None;
      }
      CarveFacts(l, k, n);
      FrontIsFree(l, k, n);
      assert l[k].End() <= npage;
      Take(le, n, k, l);
      assert LowestFit(l, n, k, le);
      page := Some(le);
    }

    /** list_del of the entry at position k */
    method Unlink(elm: nat, ghost k: nat, ghost l: seq<Block>)
      requires Shape() && l == Blocks() && k < |l| && elm == list.order[k]
      modifies list, list.next, list.prev
      ensures Shape() && Blocks() == Removed(l, k) && list.order == Removed(old(list.order), k)
      ensures forall p: nat :: p in list.order <==> p in old(list.order) && p != elm
      ensures elm < npage && list.prev[elm] == list.Ring()[k]
      ensures list.next[elm] == old(list.next[elm]) == list.Ring()[k + 1]
    {
      ghost var order := list.order;
      list.ValidFacts();
      hide Linked, ToBlocks;
      RemovedMembers(order, k);
      BlocksRemoved(order, k, property[..]);
      hide Removed;
      list.Del(elm, k);
    }

    /** A new entry of n pages from page p on, behind the entry `before` at position k of the ring */
    method LinkBehind(before: nat, p: nat, n: nat, ghost k: nat, ghost l: seq<Block>)
      requires Shape() && l == Blocks() && k <= |l| && before == list.Ring()[k] && p < npage && p !in list.order
      modifies list, list.next, list.prev, property, isHead
      ensures Shape() && Blocks() == Inserted(l, k, Block(p, n))
      ensures forall q: nat :: q in list.order <==> q in old(list.order) || q == p
      ensures forall q: nat | q < npage :: isHead[q] == (old(isHead[q]) || q == p)
    {
      ghost var order := list.order;
      hide Linked, ToBlocks, Inserted;
      property[p] := n;
      isHead[p] := true;
      PropertyFrame(order, old(property[..]), property[..]);
      BlocksInserted(order, k, p, property[..]);
      InsertedMembers(order, k, p);
      list.AddAfter(before, p, k);
    }

    lemma ChosenFacts(page: nat, n: nat, k: nat, l: seq<Block>)
      requires Listed({}) && l == Blocks() && k < |l| && page == l[k].base && 0 < n <= l[k].n
      ensures page == list.order[k] && page + n !in list.order && page + l[k].n <= npage && property[page] == l[k].n
      ensures Coalesced(Carve(l, k, n)) && forall j | 0 <= j < |Carve(l, k, n)| :: Carve(l, k, n)[j].End() <= npage
      ensures Carve(l, k, n) ==
                if l[k].n > n then Inserted(Removed(l, k), k, Block(page + n, l[k].n - n)) else Removed(l, k)
    {
      hide Linked, IsFree, Total, Distinct, Removed, Inserted, Carve;
      list.ValidFacts();
      CarveFacts(l, k, n);
      CarveHeads(l, k, n, npage);
    }

    /** Unlink the chosen entry and put what is left of it in its place */
    method Replace(page: nat, n: nat, ghost k: nat, ghost l: seq<Block>)
      requires Listed({}) && l == Blocks() && k < |l| && page == l[k].base && 0 < n <= l[k].n
      modifies list, list.next, list.prev, property, isHead
      ensures Listed({page}) && Blocks() == Carve(l, k, n) && page !in list.order && page < npage
    {
      hide Linked, Coalesced, IsFree, Total, ToBlocks, Distinct, Carve, Removed, Inserted;
      ChosenFacts(page, n, k, l);
      var size := property[page];
      Unlink(page, k, l);
      if size > n {
        LinkBehind(list.prev[page], page + n, size - n, k, Removed(l, k));
      }
    }

    /** The rest of default_alloc_pages, once the search has found an entry */
    method Take(page: nat, n: nat, ghost k: nat, ghost l: seq<Block>)
      requires Listed({}) && nrFree == Total(l) && l == Blocks() && k < |l| && page == l[k].base && 0 < n <= l[k].n
      modifies this, list, list.next, list.prev, property, isHead
      ensures Listed({}) && nrFree == Total(Blocks()) && Blocks() == Carve(l, k, n)
    {
      assert nrFree >= n && Total(Carve(l, k, n)) == nrFree - n by {
        TotalBound(l);
        CarveFacts(l, k, n);
      }
      hide Linked, Coalesced, Total, Carve, Blocks;
      Replace(page, n, k, l);
      nrFree := nrFree - n;
      isHead[page] := false;
    }

    /** The loop of default_free_pages over the pages to free, and the header of the block they form */
    method PrepareFree(base: nat, n: nat)
      requires Listed({}) && n > 0 && base + n <= npage
      requires forall p: nat | base <= p < base + n :: !reserved[p] && !IsFree(Blocks(), p)
      modifies property, isHead
      ensures Listed({base}) && Blocks() == old(Blocks()) && base !in list.order && property[base] == n
    {
      ghost var l := Blocks();
      HeadsAreFree(base, n);
      hide Linked, Coalesced, IsFree, Total, ToBlocks;
      for p := base to base + n
        modifies isHead
        invariant forall q: nat | q < npage :: isHead[q] == old(isHead[q])
      {
        assert !reserved[p] && !isHead[p];
        isHead[p] := false;
      }
      property[base] := n;
      isHead[base] := true;
      assert Blocks() == l by {
        PropertyFrame(list.order, old(property[..]), property[..]);
      }
    }

    /** b is the page that heads the block being built; k entries of the list l have been looked at */
    ghost predicate Building(l0: seq<Block>, range: Block, l: seq<Block>, b: nat, k: nat)
      reads list, list.next, list.prev, property, isHead
    {
      && Listed({b}) && l == Blocks() && b < npage && b !in list.order && b + property[b] <= npage
      && Merging(l0, range, l, Block(b, property[b]), k)
    }

    /** The entry p begins where the block ends */
    method MergeUp(b: nat, p: nat, ghost l0: seq<Block>, ghost range: Block, ghost l: seq<Block>, ghost k: nat)
      requires Building(l0, range, l, b, k) && k < |l| && p == list.order[k] && b + property[b] == p < npage
      modifies property, isHead, list, list.next, list.prev
      ensures Building(l0, range, Removed(l, k), b, k) && list.Ring()[k + 1] == old(list.next[p])
    {
      hide Linked, Merging, Coalesced, IsFree, Total, ToBlocks, Removed;
      ghost var small := Block(b, property[b]);
      assert l[k] == Block(p, property[p]) && l[k].End() <= npage;
      property[b] := property[b] + property[p];
      isHead[p] := false;
      PropertyFrame(list.order, old(property[..]), property[..]);
      Unlink(p, k, l);
      MergeTake(l0, range, l, small, k, Block(b, property[b]));
    }

    /** The entry p ends where the block begins: from now on p heads the block */
    method MergeDown(b: nat, p: nat, ghost l0: seq<Block>, ghost range: Block, ghost l: seq<Block>, ghost k: nat)
      requires Building(l0, range, l, b, k) && k < |l| && p == list.order[k] && p < npage && p + property[p] == b
      modifies property, isHead, list, list.next, list.prev
      ensures Building(l0, range, Removed(l, k), p, k) && list.Ring()[k + 1] == old(list.next[p])
    {
      hide Linked, Merging, Coalesced, IsFree, Total, ToBlocks, Removed;
      ghost var small, order := Block(b, property[b]), list.order;
      assert l[k] == Block(p, property[p]);
      Unlink(p, k, l);
      assert p !in list.order && forall i | 0 <= i < |list.order| :: list.order[i] in list.order;
      property[p] := property[p] + property[b];
      isHead[b] := false;
      PropertyFrame(list.order, old(property[..]), property[..]);
      MergeTake(l0, range, l, small, k, Block(p, property[p]));
    }

    /** The merging loop of default_free_pages */
    method Merge(base: nat, ghost l0: seq<Block>, ghost range: Block) returns (b: nat)
      requires Building(l0, range, l0, base, 0)
      modifies list, list.next, list.prev, property, isHead
      ensures Listed({b}) && b !in list.order && b < npage && b + property[b] <= npage && property[b] > 0
      ensures Apart(Blocks(), Block(b, property[b])) && Total(Blocks()) + property[b] == Total(l0) + range.n
      ensures forall p: nat ::
                IsFree(Blocks(), p) || Block(b, property[b]).Holds(p) <==> IsFree(l0, p) || range.Holds(p)
    {
      hide Linked, Coalesced, IsFree, Total, ToBlocks, Merging, Removed;
      b := base;
      list.NextFacts(-1);
      var le := list.next[list.head];
      ghost var l, k := l0, 0;
      while le != list.head
        invariant Building(l0, range, l, b, k) && k <= |l| && le == list.Ring()[k + 1]
        decreases |l| - k
      {
        var p := le;
        list.ValidFacts();
        list.NextFacts(k);
        assert p == list.order[k] == l[k].base && l[k].n == property[p];
        le := list.next[le];
        if b + property[b] == p {
          MergeUp(b, p, l0, range, l, k);
          l := Removed(l, k);
        } else if p + property[p] == b {
          MergeDown(b, p, l0, range, l, k);
          b := p;
          l := Removed(l, k);
        } else {
          MergeSkip(l0, range, l, Block(b, property[b]), k);
          k := k + 1;
        }
      }
      list.ValidFacts();
      MergeEnd(l0, range, l, Block(b, property[b]));
    }

    /** default_free_pages up to the linking: the pages given back and every entry they touch are one pending block */
    method Collect(base: nat, n: nat, ghost l0: seq<Block>) returns (b: nat)
      requires Listed({}) && l0 == Blocks() && n > 0 && base + n <= npage
      requires forall p: nat | base <= p < base + n :: !reserved[p] && !IsFree(l0, p)
      modifies list, list.next, list.prev, property, isHead
      ensures Listed({b}) && b !in list.order && b < npage && b + property[b] <= npage && property[b] > 0
      ensures Apart(Blocks(), Block(b, property[b])) && Total(Blocks()) + property[b] == Total(l0) + n
      ensures forall p: nat ::
                IsFree(Blocks(), p) || Block(b, property[b]).Holds(p) <==> IsFree(l0, p) || base <= p < base + n
    {
      MergeStart(l0, Block(base, n));
      hide Linked, Coalesced, IsFree, Apart, Total, Merging;
      PrepareFree(base, n);
      b := Merge(base, l0, Block(base, n));
    }

    /** default_free_pages: the pages given back, and no others, become free, and the list is coalesced again */
    method FreePages(base: nat, n: nat)
      requires Valid() && n > 0 && base + n <= npage
      requires forall p: nat | base <= p < base + n :: !reserved[p] && !IsFree(Blocks(), p)
      modifies this, list, list.next, list.prev, property, isHead
      ensures Valid() && Freed(old(Blocks()), Blocks(), base, n)
    {
      hide Linked, Coalesced, IsFree, Apart, Total, Blocks, Block.Holds;
      var b := Collect(base, n, Blocks());
      nrFree := nrFree + n;
      ApartBeside(Blocks(), Block(b, property[b]));
      ListAdd(b);
    }

    /** Freeing exactly what was just allocated restores the exact list. */
    method AllocThenFree(n: nat) returns (page: Option<nat>)
      requires Valid() && n > 0
      modifies this, list, list.next, list.prev, property, isHead
      ensures Valid() && Blocks() == old(Blocks()) && nrFree == old(nrFree)
    {
      ghost var l := Blocks();
      page := AllocPages(n);
      if page.Some? {
        hide Coalesced, IsFree, Total, Carve, LowestFit, Blocks;
        ghost var l1 := Blocks();
        FreePages(page.value, n);
        FreeUndoesAlloc(l, l1, Blocks(), page.value, n);
      }
    }
  }
}
