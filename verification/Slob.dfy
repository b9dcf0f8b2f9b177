/**
  The SLOB allocator of kern/mm/kmalloc.c. First its circular free list as a value; addresses count units of 8 bytes.
  */
module SlobRing {
  import opened Counting
  import opened FreeBlocks

  /** The position that follows i on a ring of n nodes. */
  function After(n: nat, i: nat): (r: nat)
    requires i < n
    ensures r < n
  {
    if i + 1 < n then i + 1 else 0
  }

  predicate Ascending(ring: seq<nat>) {
    forall a, b | 0 <= a < b < |ring| :: ring[a] < ring[b]
  }

  predicate Chained(next: seq<nat>, ring: seq<nat>)
    requires forall i | 0 <= i < |ring| :: ring[i] < |next|
  {
    forall a, b | 0 <= a < b < |ring| && b <= a + 1 :: next[ring[a]] == ring[b]
  }

  /** next leads through the nodes of `ring` in ascending address order and from the last back to the first. */
  predicate Cyclic(next: seq<nat>, ring: seq<nat>) {
    && |ring| > 0 && Ascending(ring)
    && (forall i | 0 <= i < |ring| :: ring[i] < |next|)
    && Chained(next, ring) && next[ring[|ring| - 1]] == ring[0]
  }

  lemma Distinctness(ring: seq<nat>, i: nat)
    requires Ascending(ring) && i < |ring|
    ensures forall j | 0 <= j < |ring| && j != i :: ring[j] != ring[i]
  {
    forall j | 0 <= j < |ring| && j != i ensures ring[j] != ring[i] {
      assert j < i || i < j;
    }
  }

  lemma NextOf(next: seq<nat>, ring: seq<nat>, i: nat)
    requires Cyclic(next, ring) && i < |ring|
    ensures ring[i] < |next| && next[ring[i]] == ring[After(|ring|, i)]
  {
    if i + 1 < |ring| {
      assert next[ring[i]] == ring[i + 1];
    }
  }

  /** Where an address that is not on the ring belongs: behind node i, at position k of the ascending order. */
  predicate Gap(ring: seq<nat>, i: nat, k: nat, b: nat) {
    && i < |ring| && k <= |ring| && (k == i + 1 || (k == 0 && i == |ring| - 1))
    && (forall j | 0 <= j < k :: ring[j] < b)
    && (forall j | k <= j < |ring| :: b < ring[j])
  }

  lemma InsertAscending(ring: seq<nat>, i: nat, k: nat, b: nat)
    requires Ascending(ring) && Gap(ring, i, k, b)
    ensures Ascending(Inserted(ring, k, b)) && b !in ring
  {
    hide Inserted;
  }

  lemma InsertChained(next: seq<nat>, ring: seq<nat>, i: nat, k: nat, b: nat)
    requires i < |ring| && b < |next| && (forall j | 0 <= j < |ring| :: ring[j] < |next|) && Chained(next, ring)
    requires k == i + 1 || (k == 0 && i == |ring| - 1)
    requires (forall j | 0 <= j < |ring| && j != i :: ring[j] != ring[i])
    requires (forall j | 0 <= j < |ring| :: ring[j] != b)
    requires next[ring[i]] == ring[After(|ring|, i)]
    ensures Chained(next[b := next[ring[i]]][ring[i] := b], Inserted(ring, k, b))
  {
    hide Inserted;
    var n2, r2: seq<nat> := next[b := next[ring[i]]][ring[i] := b], Inserted(ring, k, b);
    forall x, y | 0 <= x < y < |r2| && y <= x + 1 ensures n2[r2[x]] == r2[y] {
      if y < k {
        assert next[ring[x]] == ring[y];
      } else if x > k {
        assert next[ring[x - 1]] == ring[y - 1];
      }
    }
  }

  lemma InsertCyclic(next: seq<nat>, ring: seq<nat>, i: nat, k: nat, b: nat)
    requires Cyclic(next, ring) && b < |next| && Gap(ring, i, k, b)
    ensures Cyclic(next[b := next[ring[i]]][ring[i] := b], Inserted(ring, k, b))
  {
    InsertAscending(ring, i, k, b);
    NextOf(next, ring, i);
    Distinctness(ring, i);
    InsertChained(next, ring, i, k, b);
    hide Ascending, Inserted, Chained;
  }

  lemma RemoveAscending(ring: seq<nat>, j: nat)
    requires Ascending(ring) && j < |ring|
    ensures Ascending(Removed(ring, j))
  {
    hide Removed;
  }

  /** Unlinking the node behind node i. */
  lemma RemoveCyclic(next: seq<nat>, ring: seq<nat>, i: nat)
    requires Cyclic(next, ring) && i < |ring| && |ring| >= 2
    ensures Cyclic(next[ring[i] := next[ring[After(|ring|, i)]]], Removed(ring, After(|ring|, i)))
  {
    var j := After(|ring|, i);
    RemoveAscending(ring, j);
    NextOf(next, ring, j);
    Distinctness(ring, i);
    hide Ascending, Removed;
    var n2, r2: seq<nat> := next[ring[i] := next[ring[j]]], Removed(ring, j);
    assert forall j | 0 <= j < |r2| :: r2[j] < |n2|;
    forall x, y | 0 <= x < y < |r2| && y <= x + 1 ensures n2[r2[x]] == r2[y] {
      if y < j {
        assert next[ring[x]] == ring[y];
      } else if x >= j {
        assert next[ring[x + 1]] == ring[y + 1];
      }
    }
  }

  /** Replacing the node behind node i by one at a higher address, below the node that follows. */
  lemma MoveCyclic(next: seq<nat>, ring: seq<nat>, i: nat, x: nat)
    requires Cyclic(next, ring) && i < |ring| && |ring| >= 2 && x < |next|
    requires var j := After(|ring|, i); ring[j] < x && (j + 1 < |ring| ==> x < ring[j + 1])
    ensures Cyclic(next[ring[i] := x][x := next[ring[After(|ring|, i)]]], ring[After(|ring|, i) := x])
  {
    var j := After(|ring|, i);
    var n2, r2 := next[ring[i] := x][x := next[ring[j]]], ring[j := x];
    NextOf(next, ring, j);
    Distinctness(ring, i);
    forall y | 0 <= y < |ring| && y != j ensures ring[y] != x && (y < j ==> ring[y] < x) && (y > j ==> x < ring[y]) {
      assert y < j || y == j + 1 || (y > j + 1 && ring[j + 1] < ring[y]);
    }
    assert Ascending(r2);
    hide Ascending;
    forall a, b | 0 <= a < b < |r2| && b <= a + 1 ensures n2[r2[a]] == r2[b] {
      assert next[ring[a]] == ring[b];
    }
  }

  /**
    The two halves of slob_free on block b, which belongs at position k of l: merge with the entry above, then link.
    */
  function MergeAbove(l: seq<Block>, k: nat, b: Block): (seq<Block>, Block)
    requires k <= |l|
  {
    if k < |l| && b.End() == l[k].base then (Removed(l, k), Block(b.base, b.n + l[k].n)) else (l, b)
  }

  function LinkBelow(l: seq<Block>, k: nat, b: Block): seq<Block>
    requires k <= |l|
  {
    if k > 0 && l[k - 1].End() == b.base then l[k - 1 := Block(l[k - 1].base, l[k - 1].n + b.n)] else Inserted(l, k, b)
  }

  /** b belongs at position k of the address order. */
  predicate Fits(l: seq<Block>, k: nat, b: Block) {
    && k <= |l|
    && (forall j | 0 <= j < k :: l[j].base < b.base)
    && (forall j | k <= j < |l| :: b.base < l[j].base)
  }

  lemma MergeAboveFacts(l: seq<Block>, k: nat, b: Block)
    requires Coalesced(l) && b.n > 0 && Fits(l, k, b) && (forall p: nat | b.Holds(p) :: !IsFree(l, p))
    ensures var (l1, b1) := MergeAbove(l, k, b);
            Merging(l, b, l1, b1, 0) && Fits(l1, k, b1) && (k < |l1| ==> b1.End() != l1[k].base)
  {
    MergeStart(l, b);
    hide IsFree, Total, Removed, Merging;
    if k < |l| && b.End() == l[k].base {
      TakeAt(l, b, l, b, k, Block(b.base, b.n + l[k].n));
      TouchesOne(l, k);
    }
  }

  lemma LinkBelowFacts(l0: seq<Block>, range: Block, l: seq<Block>, k: nat, b: Block)
    requires Merging(l0, range, l, b, 0) && Fits(l, k, b) && (k < |l| ==> b.End() != l[k].base)
    ensures Coalesced(LinkBelow(l, k, b)) && Total(LinkBelow(l, k, b)) == Total(l0) + range.n
    ensures forall p: nat :: IsFree(LinkBelow(l, k, b), p) <==> IsFree(l0, p) || range.Holds(p)
  {
    hide IsFree, Total, Removed, Inserted, Merging, Coalesced;
    if k > 0 && l[k - 1].End() == b.base {
      var b2 := Block(l[k - 1].base, l[k - 1].n + b.n);
      TakeAt(l0, range, l, b, k - 1, b2);
      TouchesOne(l, k - 1);
      assert LinkBelow(l, k, b) == Inserted(Removed(l, k - 1), k - 1, b2);
      InsertMerged(l0, range, Removed(l, k - 1), b2, k - 1);
    } else {
      InsertMerged(l0, range, l, b, k);
    }
  }

  /** The entries around entry k do not touch it. */
  lemma TouchesOne(l: seq<Block>, k: nat)
    requires Coalesced(l) && k < |l|
    ensures forall j | 0 <= j < k :: l[j].End() < l[k].base
    ensures forall j | k < j < |l| :: l[k].End() < l[j].base && l[k].base < l[j].base
  {}

  /** MergeTake for an entry at any position. */
  lemma TakeAt(l0: seq<Block>, range: Block, l: seq<Block>, b: Block, k: nat, b2: Block)
    requires Merging(l0, range, l, b, 0) && k < |l| && b2.n == b.n + l[k].n
    requires (b.End() == l[k].base && b2.base == b.base) || (l[k].End() == b.base && b2.base == l[k].base)
    ensures Merging(l0, range, Removed(l, k), b2, 0) && Coalesced(l)
  {
    hide IsFree, Total, Removed;
    RemoveFacts(l, k);
    var r := Removed(l, k);
    forall i | 0 <= i < |r| ensures r[i].End() <= b2.base || b2.End() <= r[i].base {
      assert r[i] == l[if i < k then i else i + 1];
    }
    hide Coalesced, Apart;
    forall p: nat ensures IsFree(r, p) || b2.Holds(p) <==> IsFree(l0, p) || range.Holds(p) {
      assert IsFree(l, p) || b.Holds(p) <==> IsFree(l0, p) || range.Holds(p);
    }
  }

  lemma InsertMerged(l0: seq<Block>, range: Block, l: seq<Block>, b: Block, k: nat)
    requires Merging(l0, range, l, b, 0) && k <= |l|
    requires Fits(l, k, b)
    requires (k > 0 ==> l[k - 1].End() != b.base) && (k < |l| ==> b.End() != l[k].base)
    ensures Coalesced(Inserted(l, k, b)) && Total(Inserted(l, k, b)) == Total(l0) + range.n
    ensures forall p: nat :: IsFree(Inserted(l, k, b), p) <==> IsFree(l0, p) || range.Holds(p)
  {
    hide IsFree, Total, Inserted;
    forall i | 0 <= i < |l| ensures l[i].End() < b.base || b.End() < l[i].base {
      assert i < k - 1 ==> l[i].End() < l[k - 1].base;
      assert k < i ==> l[k].End() < l[i].base;
    }
    InsertFacts(l, k, b);
    hide Coalesced;
  }
}

/** slob_alloc and slob_free on headers in memory. */
module Slob {
  import opened Counting
  import opened FreeBlocks
  import opened SlobRing

  const PAGE_UNITS: nat := 512

  /** Steps from node s forward to node j, where coming back to s itself takes a full round. */
  function Steps(n: nat, s: nat, j: nat): nat
    requires s < n && j < n
  {
    if j > s then j - s else j - s + n
  }

  /** Entry c is the first one behind entry s, going round, that has `want` units. */
  predicate NextFit(l: seq<Block>, s: nat, want: nat, c: nat) {
    && s < |l| && c < |l| && l[c].n >= want
    && forall j | 0 <= j < |l| && Steps(|l|, s, j) < Steps(|l|, s, c) :: l[j].n < want
  }

  lemma GapExists(ring: seq<nat>, b: nat) returns (t: nat, k: nat)
    requires |ring| > 0 && Ascending(ring) && b !in ring
    ensures Gap(ring, t, k, b)
  {
    k := 0;
    while k < |ring| && ring[k] < b
      invariant k <= |ring| && forall j | 0 <= j < k :: ring[j] < b
    {
      k := k + 1;
    }
    t := if k == 0 then |ring| - 1 else k - 1;
    if k < |ring| {
      assert ring[k] != b;
      forall j | k <= j < |ring| ensures b < ring[j] {
        assert j == k || ring[k] < ring[j];
      }
    }
  }

  /** The two exits of the search in slob_free are taken exactly where b belongs. */
  lemma SearchStops(next: seq<nat>, ring: seq<nat>, i: nat, b: nat) returns (k: nat)
    requires Cyclic(next, ring) && i < |ring| && b !in ring && ring[i] < |next|
    ensures var cur, nxt := ring[i], next[ring[i]];
            cur < b < nxt || (cur >= nxt && (b > cur || b < nxt)) <==> Gap(ring, i, k, b)
  {
    NextOf(next, ring, i);
    assert ring[0] <= ring[i] <= ring[|ring| - 1];
    k := if i + 1 < |ring| || b > ring[i] then i + 1 else 0;
    if i + 1 < |ring| {
      assert ring[i] < ring[i + 1];
      forall j | 0 <= j < |ring| ensures j <= i ==> ring[j] <= ring[i] {}
      forall j | 0 <= j < |ring| ensures j > i ==> ring[j] >= ring[i + 1] {}
    } else {
      forall j | 0 <= j < |ring| ensures ring[0] <= ring[j] <= ring[i] {}
    }
  }

  /** Linking b behind node i; when `up`, b also takes the place of the entry above, which it swallows. */
  lemma LinkUpCyclic(next: seq<nat>, ring: seq<nat>, i: nat, k: nat, b: nat, up: bool)
    requires Cyclic(next, ring) && b < |next| && Gap(ring, i, k, b) && (up ==> k < |ring| && |ring| >= 2)
    ensures ring[i] < |next| && next[ring[i]] < |next|
    ensures var bn := if up then next[next[ring[i]]] else next[ring[i]];
            Cyclic(next[b := bn][ring[i] := b], FreedRing(ring, k, b, up, false))
  {
    NextOf(next, ring, i);
    NextOf(next, ring, After(|ring|, i));
    InsertAscending(ring, i, k, b);
    Distinctness(ring, i);
    hide Cyclic, Ascending, Inserted, Removed;
    InsertCyclic(next, ring, i, k, b);
    if up {
      hide Gap;
      SkipAbove(next, ring, i, k, b);
    }
  }

  lemma SkipAbove(next: seq<nat>, ring: seq<nat>, i: nat, k: nat, b: nat)
    requires i < |ring| && k < |ring| && k == After(|ring|, i) && k != i && ring[i] < |next| && ring[k] < |next|
    requires b < |next|
    requires next[ring[i]] == ring[k] && ring[k] != ring[i] && ring[k] != b && ring[i] != b
    requires Cyclic(next[b := ring[k]][ring[i] := b], Inserted(ring, k, b))
    ensures Cyclic(next[b := next[ring[k]]][ring[i] := b], Inserted(Removed(ring, k), k, b))
  {
    hide Cyclic, Inserted, Removed;
    var n1, r1: seq<nat> := next[b := next[ring[i]]][ring[i] := b], Inserted(ring, k, b);
    assert r1[k] == b && r1[k + 1] == ring[k];
    RemoveCyclic(n1, r1, k);
    assert Removed(r1, k + 1) == Inserted(Removed(ring, k), k, b);
    assert n1[b := n1[ring[k]]] == next[b := next[ring[k]]][ring[i] := b];
  }

  /** b is swallowed by the entry below, which takes over its link. */
  lemma SwallowCyclic(next: seq<nat>, r1: seq<nat>, k: nat, b: nat, bn: nat, cur: nat)
    requires cur < |next| && b < |next| && cur != b && 0 < k <= |r1|
    requires Cyclic(next[b := bn][cur := b], Inserted(r1, k, b)) && r1[k - 1] == cur
    ensures Cyclic(next[b := bn][cur := bn], r1)
  {
    hide Inserted, Removed, Cyclic;
    var n2, r2: seq<nat> := next[b := bn][cur := b], Inserted(r1, k, b);
    assert r2[k - 1] == cur && r2[k] == b;
    RemoveCyclic(n2, r2, k - 1);
    assert Removed(r2, k) == r1;
    assert n2[cur := n2[b]] == next[b := bn][cur := bn];
  }

  function FreedRing(ring: seq<nat>, k: nat, b: nat, up: bool, down: bool): seq<nat>
    requires k <= |ring| && (up ==> k < |ring|)
  {
    var r1 := if up then Removed(ring, k) else ring;
    if down then r1 else Inserted(r1, k, b)
  }

  /** The list links slob_free leaves. */
  lemma FreeCyclic(next: seq<nat>, ring: seq<nat>, i: nat, k: nat, b: nat, up: bool, down: bool)
    requires Cyclic(next, ring) && b < |next| && Gap(ring, i, k, b)
    requires (up ==> k < |ring| && |ring| >= 2) && (down ==> k > 0)
    ensures ring[i] < |next| && next[ring[i]] < |next|
    ensures var bn := if up then next[next[ring[i]]] else next[ring[i]];
            Cyclic(next[b := bn][ring[i] := if down then bn else b], FreedRing(ring, k, b, up, down))
  {
    LinkUpCyclic(next, ring, i, k, b, up);
    if down {
      InsertAscending(ring, i, k, b);
      hide Inserted, Removed, Cyclic, Ascending;
      SwallowCyclic(next, FreedRing(ring, k, b, up, true), k, b, if up then next[next[ring[i]]] else next[ring[i]],
                    ring[i]);
    }
  }

  /** The headers slob_free leaves: units is the header field of every address, b the block being freed. */
  function FreedUnits(units: seq<nat>, ring: seq<nat>, k: nat, b: nat, up: bool, down: bool): seq<nat>
    requires b < |units| && (forall j | 0 <= j < |ring| :: ring[j] < |units|)
    requires k <= |ring| && (up ==> k < |ring|) && (down ==> k > 0)
  {
    var u1 := if up then units[b := units[b] + units[ring[k]]] else units;
    if down then u1[ring[k - 1] := u1[ring[k - 1]] + u1[b]] else u1
  }

  lemma FreedBlocks(units: seq<nat>, ring: seq<nat>, k: nat, b: nat, l: seq<Block>, up: bool, down: bool)
    requires b < |units| && (forall j | 0 <= j < |ring| :: ring[j] < |units| && ring[j] != b) && k <= |ring|
    requires k > 0 ==> forall j | 0 <= j < |ring| && j != k - 1 :: ring[j] != ring[k - 1]
    requires l == ToBlocks(ring, units)
    requires up == (k < |l| && b + units[b] == l[k].base) && down == (k > 0 && l[k - 1].End() == b)
    ensures ToBlocks(FreedRing(ring, k, b, up, down), FreedUnits(units, ring, k, b, up, down)) ==
            LinkBelow(MergeAbove(l, k, Block(b, units[b])).0, k, MergeAbove(l, k, Block(b, units[b])).1)
  {
    hide Inserted, Removed, ToBlocks;
    if up {
      var r1: seq<nat>, u1: seq<nat> := Removed(ring, k), units[b := units[b] + units[ring[k]]];
      BlocksRemoved(ring, k, units);
      PropertyFrame(r1, units, u1);
      assert FreedRing(ring, k, b, true, down) == FreedRing(r1, k, b, false, down);
      assert FreedUnits(units, ring, k, b, true, down) == FreedUnits(u1, r1, k, b, false, down);
      assert MergeAbove(l, k, Block(b, units[b])) == (ToBlocks(r1, u1), Block(b, u1[b]));
      hide *;
      LinkedBlocks(u1, r1, k, b, ToBlocks(r1, u1), down);
    } else {
      LinkedBlocks(units, ring, k, b, l, down);
    }
  }

  lemma LinkedBlocks(units: seq<nat>, ring: seq<nat>, k: nat, b: nat, l: seq<Block>, down: bool)
    requires b < |units| && (forall j | 0 <= j < |ring| :: ring[j] < |units|) && k <= |ring|
    requires k > 0 ==> forall j | 0 <= j < |ring| && j != k - 1 :: ring[j] != ring[k - 1]
    requires l == ToBlocks(ring, units) && down == (k > 0 && l[k - 1].base + l[k - 1].n == b)
    ensures ToBlocks(FreedRing(ring, k, b, false, down), FreedUnits(units, ring, k, b, false, down)) ==
            LinkBelow(l, k, Block(b, units[b]))
  {
    hide Inserted, Removed, ToBlocks;
    if down {
      EntryGrows(ring, units, k - 1, units[b]);
    } else {
      BlocksInserted(ring, k, b, units);
    }
  }

  lemma EntryGrows(ring: seq<nat>, units: seq<nat>, k: nat, more: nat)
    requires (forall j | 0 <= j < |ring| :: ring[j] < |units|) && k < |ring|
    requires forall j | 0 <= j < |ring| && j != k :: ring[j] != ring[k]
    ensures ToBlocks(ring, units[ring[k] := units[ring[k]] + more]) ==
            ToBlocks(ring, units)[k := Block(ring[k], units[ring[k]] + more)]
  {}

  lemma GapStops(next: seq<nat>, ring: seq<nat>, i: nat, k: nat, b: nat)
    requires Cyclic(next, ring) && Gap(ring, i, k, b)
    ensures ring[i] < |next|
    ensures (ring[i] < b < next[ring[i]] || (ring[i] >= next[ring[i]] && (b > ring[i] || b < next[ring[i]])))
  {
    NextOf(next, ring, i);
    assert ring[0] <= ring[i];
  }

  /** The two address comparisons of slob_free recognise the neighbours in address order. */
  lemma TestsMatch(next: seq<nat>, units: seq<nat>, ring: seq<nat>, i: nat, k: nat, b: nat, l: seq<Block>)
    requires Cyclic(next, ring) && |units| == |next| && l == ToBlocks(ring, units) && Coalesced(l)
    requires b < |units| && units[b] > 0 && Gap(ring, i, k, b)
    ensures ring[i] < |next| && next[ring[i]] < |next| && |l| == |ring|
    ensures b + units[b] == next[ring[i]] <==> k < |l| && b + units[b] == l[k].base
    ensures ring[i] + units[ring[i]] == b <==> k > 0 && l[k - 1].End() == b
    ensures k < |l| && b + units[b] == l[k].base ==> next[ring[i]] == ring[k]
    ensures k > 0 ==> i == k - 1
    ensures forall j | 0 <= j < |ring| :: ring[j] != b
    ensures k > 0 ==> forall j | 0 <= j < |ring| && j != k - 1 :: ring[j] != ring[k - 1]
  {
    hide ToBlocks;
    NextOf(next, ring, i);
    InsertAscending(ring, i, k, b);
    if k > 0 {
      Distinctness(ring, k - 1);
    }
    hide Ascending, Chained;
    assert l[i].n > 0;
  }

  lemma FreedMembers(ring: seq<nat>, i: nat, k: nat, b: nat, up: bool, down: bool)
    requires Ascending(ring) && Gap(ring, i, k, b) && (up ==> k < |ring| && |ring| >= 2)
    ensures forall x | x in ring && (up ==> x != ring[k]) :: x in FreedRing(ring, k, b, up, down)
    ensures ring[i] in FreedRing(ring, k, b, up, down)
  {
    assert Distinct(ring);
    var r1 := if up then Removed(ring, k) else ring;
    if up {
      RemovedMembers(ring, k);
    }
    InsertedMembers(r1, k, b);
    hide Ascending;
    assert up ==> ring[i] != ring[k];
  }

  /** The free list as a value: the cycle is coalesced, lies in memory and holds the one-unit arena block. */
  ghost predicate GoodList(next: seq<nat>, units: seq<nat>, ring: seq<nat>, arena: nat) {
    && |units| == |next| && Cyclic(next, ring) && Coalesced(ToBlocks(ring, units))
    && (forall p: nat | IsFree(ToBlocks(ring, units), p) :: p < |units|)
    && arena in ring && arena < |units| && units[arena] == 1
  }

  /** slob_free has found node i as the place for b, and up and down are the outcomes of its two comparisons. */
  ghost predicate AtGap(next: seq<nat>, units: seq<nat>, ring: seq<nat>, i: nat, k: nat, b: nat, up: bool, down: bool) {
    && Gap(ring, i, k, b) && b < |units| == |next| && units[b] > 0
    && ring[i] < |next| && next[ring[i]] < |next|
    && up == (b + units[b] == next[ring[i]]) && down == (ring[i] + units[ring[i]] == b)
  }

  lemma AtGapFacts(next: seq<nat>, units: seq<nat>, ring: seq<nat>, arena: nat, i: nat, k: nat, b: nat, up: bool,
                   down: bool)
    requires GoodList(next, units, ring, arena) && AtGap(next, units, ring, i, k, b, up, down)
    requires b + units[b] != arena && arena + 1 != b
    ensures (up ==> k < |ring| && |ring| >= 2 && next[ring[i]] == ring[k] != ring[i]) && (down ==> k > 0)
    ensures var l := ToBlocks(ring, units);
            |l| == |ring| && up == (k < |l| && b + units[b] == l[k].base) && down == (k > 0 && l[k - 1].End() == b)
    ensures (forall j | 0 <= j < |ring| :: ring[j] < |units| && ring[j] != b) && (k > 0 ==> i == k - 1)
    ensures k > 0 ==> forall j | 0 <= j < |ring| && j != k - 1 :: ring[j] != ring[k - 1]
    ensures up ==> arena != ring[k]
    ensures down ==> arena != ring[k - 1]
  {
    hide IsFree, ToBlocks, Chained, Ascending, Coalesced;
    TestsMatch(next, units, ring, i, k, b, ToBlocks(ring, units));
    if up {
      ArenaElsewhere(ring, k, arena);
      Distinctness(ring, i);
    }
  }

  function FreedNext(next: seq<nat>, cur: nat, b: nat, up: bool, down: bool): seq<nat>
    requires cur < |next| && next[cur] < |next| && b < |next|
  {
    var bn := if up then next[next[cur]] else next[cur];
    next[b := bn][cur := if down then bn else b]
  }

  lemma FreeLinks(next: seq<nat>, units: seq<nat>, ring: seq<nat>, arena: nat, i: nat, k: nat, b: nat, up: bool,
                  down: bool,
             r2: seq<nat>, u2: seq<nat>)
    requires GoodList(next, units, ring, arena) && AtGap(next, units, ring, i, k, b, up, down)
    requires b + units[b] <= |units| && b + units[b] != arena && arena + 1 != b
    requires k <= |ring| && (up ==> k < |ring|) && (down ==> k > 0) && forall j | 0 <= j < |ring| :: ring[j] < |units|
    requires r2 == FreedRing(ring, k, b, up, down) && u2 == FreedUnits(units, ring, k, b, up, down)
    ensures Cyclic(FreedNext(next, ring[i], b, up, down), r2) && ring[i] in r2
    ensures |u2| == |units| && arena in r2 && u2[arena] == 1
  {
    hide IsFree, Total, ToBlocks, Inserted, Removed, Chained, Ascending, Coalesced, FreedRing;
    AtGapFacts(next, units, ring, arena, i, k, b, up, down);
    hide AtGap;
    FreeCyclic(next, ring, i, k, b, up, down);
    FreedMembers(ring, i, k, b, up, down);
  }

  lemma FreeCounts(next: seq<nat>, units: seq<nat>, ring: seq<nat>, arena: nat, i: nat, k: nat, b: nat, up: bool,
                   down: bool,
             r2: seq<nat>, u2: seq<nat>)
    requires GoodList(next, units, ring, arena) && AtGap(next, units, ring, i, k, b, up, down)
    requires b + units[b] <= |units| && b + units[b] != arena && arena + 1 != b
    requires forall p: nat | b <= p < b + units[b] :: !IsFree(ToBlocks(ring, units), p)
    requires k <= |ring| && (up ==> k < |ring|) && (down ==> k > 0) && forall j | 0 <= j < |ring| :: ring[j] < |units|
    requires r2 == FreedRing(ring, k, b, up, down) && u2 == FreedUnits(units, ring, k, b, up, down)
    ensures Freed(ToBlocks(ring, units), ToBlocks(r2, u2), b, units[b])
    ensures Total(ToBlocks(r2, u2)) == Total(ToBlocks(ring, units)) + units[b]
  {
    hide IsFree, Total, ToBlocks, Inserted, Removed, Cyclic, Coalesced, FreedRing, FreedUnits, LinkBelow, MergeAbove;
    var l, block := ToBlocks(ring, units), Block(b, units[b]);
    AtGapFacts(next, units, ring, arena, i, k, b, up, down);
    FreedBlocks(units, ring, k, b, l, up, down);
    MergeAboveFacts(l, k, block);
    LinkBelowFacts(l, block, MergeAbove(l, k, block).0, k, MergeAbove(l, k, block).1);
  }

  /** Everything slob_free keeps and changes, for a block that touches neither a free unit nor the arena. */
  lemma FreeOutcome(next: seq<nat>, units: seq<nat>, ring: seq<nat>, arena: nat, i: nat, k: nat, b: nat, up: bool,
                    down: bool,
             r2: seq<nat>, u2: seq<nat>)
    requires GoodList(next, units, ring, arena) && AtGap(next, units, ring, i, k, b, up, down)
    requires b + units[b] <= |units| && b + units[b] != arena && arena + 1 != b
    requires forall p: nat | b <= p < b + units[b] :: !IsFree(ToBlocks(ring, units), p)
    requires k <= |ring| && (up ==> k < |ring|) && (down ==> k > 0) && forall j | 0 <= j < |ring| :: ring[j] < |units|
    requires r2 == FreedRing(ring, k, b, up, down) && u2 == FreedUnits(units, ring, k, b, up, down)
    ensures GoodList(FreedNext(next, ring[i], b, up, down), u2, r2, arena) && ring[i] in r2
    ensures Freed(ToBlocks(ring, units), ToBlocks(r2, u2), b, units[b])
    ensures Total(ToBlocks(r2, u2)) == Total(ToBlocks(ring, units)) + units[b]
  {
    hide IsFree, Total, ToBlocks, Cyclic, Coalesced, FreedRing, FreedUnits;
    FreeLinks(next, units, ring, arena, i, k, b, up, down, r2, u2);
    FreeCounts(next, units, ring, arena, i, k, b, up, down, r2, u2);
  }

  lemma ArenaElsewhere(ring: seq<nat>, k: nat, arena: nat)
    requires k < |ring| && arena in ring && arena != ring[k]
    ensures |ring| >= 2
  {}

  /** Writing the header of an address that is not free changes nothing about the list. */
  lemma HeaderWrite(next: seq<nat>, units: seq<nat>, ring: seq<nat>, arena: nat, b: nat, n: nat)
    requires GoodList(next, units, ring, arena) && b < |units| && !IsFree(ToBlocks(ring, units), b)
    ensures GoodList(next, units[b := n], ring, arena) && ToBlocks(ring, units[b := n]) == ToBlocks(ring, units)
    ensures b !in ring
  {
    NotOnRing(ring, units, b);
    hide IsFree, Cyclic, Coalesced, ToBlocks;
    PropertyFrame(ring, units, units[b := n]);
  }

  lemma FreedHeaders(units: seq<nat>, ring: seq<nat>, k: nat, b: nat, up: bool, down: bool)
    requires b < |units| && (forall j | 0 <= j < |ring| :: ring[j] < |units|)
    requires k <= |ring| && (up ==> k < |ring|) && (down ==> k > 0) && Coalesced(ToBlocks(ring, units))
    ensures forall a: nat | a < |units| && a != b && !IsFree(ToBlocks(ring, units), a) ::
              FreedUnits(units, ring, k, b, up, down)[a] == units[a]
  {
    forall a: nat | a < |units| && a != b && !IsFree(ToBlocks(ring, units), a)
      ensures FreedUnits(units, ring, k, b, up, down)[a] == units[a]
    {
      NotOnRing(ring, units, a);
    }
  }

  lemma NotOnRing(ring: seq<nat>, units: seq<nat>, b: nat)
    requires Coalesced(ToBlocks(ring, units)) && !IsFree(ToBlocks(ring, units), b)
    ensures b !in ring
  {
    forall j | 0 <= j < |ring| ensures IsFree(ToBlocks(ring, units), ring[j]) {
      assert ToBlocks(ring, units)[j].Holds(ring[j]);
    }
  }

  lemma StepsAfter(n: nat, s: nat, c: nat)
    requires s < n && c < n && c != s
    ensures Steps(n, s, After(n, c)) == Steps(n, s, c) + 1
    ensures forall j | 0 <= j < n && Steps(n, s, j) < Steps(n, s, c) + 1 :: j == c || Steps(n, s, j) < Steps(n, s, c)
  {}

  /** The entry behind node i is large enough for `want`, and is not the arena: then it is not node i itself. */
  lemma FitFacts(next: seq<nat>, units: seq<nat>, ring: seq<nat>, arena: nat, i: nat, want: nat)
    requires GoodList(next, units, ring, arena) && i < |ring| && want >= 1
    requires var c := After(|ring|, i); ToBlocks(ring, units)[c].n >= want && (want >= 2 || ring[c] != arena)
    ensures var c := After(|ring|, i);
            && |ring| >= 2 && ring[i] < |units| && ring[c] < |units| && next[ring[i]] == ring[c] != ring[i]
            && arena != ring[c] && units[ring[c]] == ToBlocks(ring, units)[c].n && ring[c] + units[ring[c]] <= |units|
            && next[ring[c]] < |next|
  {
    var c, l := After(|ring|, i), ToBlocks(ring, units);
    hide ToBlocks;
    NextOf(next, ring, i);
    NextOf(next, ring, c);
    assert l[c].Holds(ring[c] + units[ring[c]] - 1);
    assert IsFree(l, ring[c] + units[ring[c]] - 1);
    ArenaElsewhere(ring, c, arena);
    Distinctness(ring, i);
  }

  lemma CutExact(next: seq<nat>, units: seq<nat>, ring: seq<nat>, arena: nat, i: nat, c: nat, want: nat, l: seq<Block>)
    requires GoodList(next, units, ring, arena) && l == ToBlocks(ring, units)
    requires i < |ring| && c == After(|ring|, i) && l[c].n == want >= 1
    requires |ring| >= 2 && ring[i] < |next| && ring[c] < |next| && arena != ring[c]
    ensures GoodList(next[ring[i] := next[ring[c]]], units, Removed(ring, c), arena) && ring[i] in Removed(ring, c)
    ensures ToBlocks(Removed(ring, c), units) == Carve(l, c, want)
  {
    CarveFacts(l, c, want);
    assert Distinct(ring);
    RemovedMembers(ring, c);
    hide IsFree, ToBlocks, Chained, Ascending, Coalesced, Removed;
    RemoveCyclic(next, ring, i);
    BlocksRemoved(ring, c, units);
  }

  lemma CutFrontBlocks(units: seq<nat>, ring: seq<nat>, c: nat, x: nat, want: nat, l: seq<Block>)
    requires (forall j | 0 <= j < |ring| :: ring[j] < |units| && ring[j] != x) && l == ToBlocks(ring, units)
    requires c < |ring| && l[c].n > want > 0 && x == ring[c] + want < |units|
    requires forall j | 0 <= j < |ring| && j != c :: ring[j] != ring[c]
    ensures ToBlocks(ring[c := x], units[x := l[c].n - want][ring[c] := want]) == Carve(l, c, want)
  {
    hide ToBlocks;
  }

  lemma CutFront(next: seq<nat>, units: seq<nat>, ring: seq<nat>, arena: nat, i: nat, c: nat, x: nat, want: nat,
                 l: seq<Block>)
    requires GoodList(next, units, ring, arena) && l == ToBlocks(ring, units)
    requires i < |ring| && c == After(|ring|, i) && l[c].n > want >= 1 && x == ring[c] + want
    requires |ring| >= 2 && ring[i] < |next| && ring[c] < |next| && arena != ring[c] && ring[c] + l[c].n <= |units|
    ensures GoodList(next[ring[i] := x][x := next[ring[c]]], units[x := l[c].n - want][ring[c] := want], ring[c := x],
                     arena)
    ensures ring[i] in ring[c := x]
    ensures ToBlocks(ring[c := x], units[x := l[c].n - want][ring[c] := want]) == Carve(l, c, want)
  {
    hide IsFree, Chained, Coalesced, ToBlocks, Carve, Ascending;
    CarveFacts(l, c, want);
    CutInside(l, c, x);
    assert forall j | 0 <= j < |ring| :: ring[j] == l[j].base != x;
    Distinctness(ring, c);
    CutFrontBlocks(units, ring, c, x, want, l);
    MoveCyclic(next, ring, i, x);
    assert ring[c := x][i] == ring[i];
    MembersKept(ring, c, x);
    hide Cyclic;
    assert arena != x;
  }

  /** An address inside entry c lies below the entries that follow and heads no entry. */
  lemma CutInside(l: seq<Block>, c: nat, x: nat)
    requires Coalesced(l) && c < |l| && l[c].base < x < l[c].End()
    ensures (forall j | 0 <= j < |l| :: l[j].base != x) && (c + 1 < |l| ==> x < l[c + 1].base)
  {}

  lemma MembersKept(ring: seq<nat>, c: nat, x: nat)
    requires c < |ring|
    ensures forall y | y in ring && y != ring[c] :: y in ring[c := x]
  {
    forall y | y in ring && y != ring[c] ensures y in ring[c := x] {
      var j :| 0 <= j < |ring| && ring[j] == y;
      assert ring[c := x][j] == y;
    }
  }

  /** The stores with which slob_alloc takes `want` units from the front of the entry cur behind prev. */
  function CutNext(next: seq<nat>, prev: nat, cur: nat, want: nat, exact: bool): seq<nat>
    requires prev < |next| && cur < |next| && (!exact ==> cur + want < |next|)
  {
    if exact then next[prev := next[cur]] else var n1 := next[prev := cur + want]; n1[cur + want := n1[cur]]
  }

  function CutUnits(units: seq<nat>, cur: nat, want: nat, exact: bool): seq<nat>
    requires cur < |units| && (!exact ==> want <= units[cur] && cur + want < |units|)
  {
    if exact then units else units[cur + want := units[cur] - want][cur := want]
  }

  /** `ring` lists exactly the blocks of l and still holds the node prev, where slobfree is left. */
  ghost predicate Lists(next: seq<nat>, units: seq<nat>, ring: seq<nat>, l: seq<Block>, prev: nat) {
    Cyclic(next, ring) && ToBlocks(ring, units) == l && prev in ring
  }

  /** Taking `want` units from entry c, behind node i, leaves a list of just the remaining units with slobfree on it. */
  ghost predicate CutKeepsList(next: seq<nat>, units: seq<nat>, ring: seq<nat>, i: nat, c: nat, want: nat,
                               l: seq<Block>)
    requires i < |ring| == |l| && c < |ring| && ring[i] < |next| && ring[c] + l[c].n <= |units| == |next|
    requires 0 < want <= l[c].n && ring[c] < |units| && units[ring[c]] == l[c].n
  {
    var exact := l[c].n == want;
    exists r2 ::
      Lists(CutNext(next, ring[i], ring[c], want, exact), CutUnits(units, ring[c], want, exact), r2, Carve(l, c, want),
            ring[i])
  }

  /**
    Whatever the size asked for, slob_alloc keeps its list exactly when it found it with two entries or more. The arena
    entry sees to that as long as no request is small enough to take it.
    */
  lemma CutKeepsListIff(next: seq<nat>, units: seq<nat>, ring: seq<nat>, i: nat, c: nat, want: nat, l: seq<Block>)
    requires |units| == |next| && Cyclic(next, ring) && l == ToBlocks(ring, units) && Coalesced(l)
    requires i < |ring| && c == After(|ring|, i) && 0 < want <= l[c].n && l[c].End() <= |units|
    ensures CutKeepsList(next, units, ring, i, c, want, l) <==> |ring| >= 2
  {
    hide CutKeepsList, Coalesced, ToBlocks, After;
    if |ring| == 1 {
      LastEntry(next, units, ring, i, c, want, l);
    } else if l[c].n == want {
      CutWholeLists(next, units, ring, i, c, want, l);
    } else {
      CutPartLists(next, units, ring, i, c, want, l);
    }
  }

  lemma LastEntry(next: seq<nat>, units: seq<nat>, ring: seq<nat>, i: nat, c: nat, want: nat, l: seq<Block>)
    requires |units| == |next| && Cyclic(next, ring) && l == ToBlocks(ring, units) && |ring| == 1
    requires i == 0 == c && 0 < want <= l[c].n && l[c].End() <= |units|
    ensures !CutKeepsList(next, units, ring, i, c, want, l)
  {
    hide ToBlocks, Cyclic, CutNext, CutUnits;
  }

  lemma CutWholeLists(next: seq<nat>, units: seq<nat>, ring: seq<nat>, i: nat, c: nat, want: nat, l: seq<Block>)
    requires |units| == |next| && Cyclic(next, ring) && l == ToBlocks(ring, units) && |ring| >= 2
    requires i < |ring| && c == After(|ring|, i) && 0 < want == l[c].n && l[c].End() <= |units|
    ensures CutKeepsList(next, units, ring, i, c, want, l)
  {
    assert Distinct(ring);
    RemovedMembers(ring, c);
    hide ToBlocks, Chained, Ascending, Removed;
    RemoveCyclic(next, ring, i);
    BlocksRemoved(ring, c, units);
    assert Lists(CutNext(next, ring[i], ring[c], want, l[c].n == want), CutUnits(units, ring[c], want, l[c].n == want),
                 Removed(ring, c), Carve(l, c, want), ring[i]);
  }

  lemma CutPartLists(next: seq<nat>, units: seq<nat>, ring: seq<nat>, i: nat, c: nat, want: nat, l: seq<Block>)
    requires |units| == |next| && Cyclic(next, ring) && l == ToBlocks(ring, units) && Coalesced(l) && |ring| >= 2
    requires i < |ring| && c == After(|ring|, i) && 0 < want < l[c].n && l[c].End() <= |units|
    ensures CutKeepsList(next, units, ring, i, c, want, l)
  {
    hide Chained, Coalesced, ToBlocks, Carve, Ascending;
    Distinctness(ring, c);
    var x := ring[c] + want;
    CutInside(l, c, x);
    assert forall j | 0 <= j < |ring| :: ring[j] == l[j].base != x;
    CutFrontBlocks(units, ring, c, x, want, l);
    MoveCyclic(next, ring, i, x);
    assert ring[c := x][i] == ring[i];
    assert Lists(CutNext(next, ring[i], ring[c], want, l[c].n == want), CutUnits(units, ring[c], want, l[c].n == want),
                 ring[c := x], Carve(l, c, want), ring[i]);
  }

  /**
    kmalloc(0) asks for one unit; on the initial list that is the arena itself, which is handed out and stays listed.
    */
  lemma ZeroSizeBreaksList(arena: nat, size: nat)
    requires arena < size
    ensures var next, units := seq(size, _ => arena), seq(size, i => if i == arena then 1 else 0);
            && SlobUnits(0 + SLOB_UNIT) == 1 && Cyclic(next, [arena]) && ToBlocks([arena], units) == [Block(arena, 1)]
            && CutNext(next, arena, arena, 1, true) == next && CutUnits(units, arena, 1, true) == units
            && !CutKeepsList(next, units, [arena], 0, 0, 1, [Block(arena, 1)])
  {
    var next, units := seq(size, _ => arena), seq(size, i => if i == arena then 1 else 0);
    assert ToBlocks([arena], units) == [Block(arena, 1)];
    assert CutNext(next, arena, arena, 1, true) == next;
    CutKeepsListIff(next, units, [arena], 0, 0, 1, [Block(arena, 1)]);
  }

  /** The units of a block. */
  ghost function Span(b: nat, n: nat): (r: set<nat>)
    ensures |r| == n && forall u: nat :: u in r <==> b <= u < b + n
  {
    if n == 0 then {} else Span(b, n - 1) + {b + n - 1}
  }

  /**
    Who owns which unit: `held` are the units handed out and not yet freed, `live` maps each outstanding block to its
    size, which its header still records; together with the free list they make up the arena unit and the pages
    obtained.
    */
  ghost predicate Owned(l: seq<Block>, units: seq<nat>, arena: nat, held: set<nat>, live: map<nat, nat>, pages: nat) {
    && (forall u: nat | u in held :: !IsFree(l, u) && u < |units|)
    && |held| + Total(l) == 1 + PAGE_UNITS * pages
    && arena + 1 !in held && (arena > 0 ==> arena - 1 !in held)
    && (forall b: nat | b in live :: live[b] >= 1 && Span(b, live[b]) <= held && b < |units| && units[b] == live[b])
    && (forall b: nat, c: nat | b in live && c in live && b != c :: Span(b, live[b]) !! Span(c, live[c]))
  }

  /** No unit next to the one-unit arena block is free. */
  lemma ArenaIsolated(next: seq<nat>, units: seq<nat>, ring: seq<nat>, arena: nat)
    requires GoodList(next, units, ring, arena)
    ensures !IsFree(ToBlocks(ring, units), arena + 1) && (arena > 0 ==> !IsFree(ToBlocks(ring, units), arena - 1))
  {
    hide ToBlocks, Cyclic;
    var l := ToBlocks(ring, units);
    var m :| 0 <= m < |ring| && ring[m] == arena;
    assert l[m] == Block(arena, 1);
  }

  lemma LiveSpan(held: set<nat>, live: map<nat, nat>, b: nat, u: nat)
    requires b in live && live[b] > 0 && Span(b, live[b]) <= held && b <= u < b + live[b]
    ensures u in held && b in held
  {
    assert u in Span(b, live[b]) && b in Span(b, live[b]);
  }

  lemma OwnedAfterCut(l: seq<Block>, l2: seq<Block>, units: seq<nat>, u2: seq<nat>, arena: nat, held: set<nat>,
                      live: map<nat, nat>, pages: nat, b: nat, want: nat)
    requires Owned(l, units, arena, held, live, pages) && Allocated(l, l2, b, want) && Total(l2) == Total(l) - want
    requires want >= 1 && (forall p: nat | b <= p < b + want :: IsFree(l, p)) && b + want <= |units| == |u2|
    requires u2[b] == want
    requires !IsFree(l, arena + 1) && (arena > 0 ==> !IsFree(l, arena - 1))
    requires forall a: nat | a < |units| && !IsFree(l, a) :: u2[a] == units[a]
    ensures Owned(l2, u2, arena, held + Span(b, want), live[b := want], pages) && b !in live
  {
    hide IsFree, Total, Coalesced, Span;
    assert IsFree(l, b);
    if b in live {
      LiveSpan(held, live, b, b);
    }
    assert held !! Span(b, want);
    forall c: nat | c in live ensures u2[c] == live[c] && b != c && Span(c, live[c]) !! Span(b, want) {
      LiveSpan(held, live, c, c);
    }
  }

  lemma OwnedAfterFree(l: seq<Block>, l2: seq<Block>, units: seq<nat>, u2: seq<nat>, arena: nat, held: set<nat>,
                       live: map<nat, nat>, pages: nat, b: nat)
    requires Owned(l, units, arena, held, live, pages) && b in live
    requires Freed(l, l2, b, live[b]) && Total(l2) == Total(l) + live[b] && |u2| == |units|
    requires forall a: nat | a < |units| && a != b && !IsFree(l, a) :: u2[a] == units[a]
    ensures Owned(l2, u2, arena, held - Span(b, live[b]), live - {b}, pages)
  {
    hide IsFree, Total, Coalesced, Span;
    assert held == (held - Span(b, live[b])) + Span(b, live[b]);
    forall c: nat | c in live && c != b ensures u2[c] == live[c] && Span(c, live[c]) <= held - Span(b, live[b]) {
      LiveSpan(held, live, c, c);
    }
  }

  lemma OwnedAfterPage(l: seq<Block>, l2: seq<Block>, units: seq<nat>, u2: seq<nat>, arena: nat, held: set<nat>,
                       live: map<nat, nat>, pages: nat, b: nat)
    requires Owned(l, units, arena, held, live, pages) && Span(b, PAGE_UNITS) !! held
    requires Freed(l, l2, b, PAGE_UNITS) && Total(l2) == Total(l) + PAGE_UNITS && |u2| == |units|
    requires forall a: nat | a < |units| && a != b && !IsFree(l, a) :: u2[a] == units[a]
    ensures Owned(l2, u2, arena, held, live, pages + 1)
  {
    hide IsFree, Total, Coalesced, Span;
    assert b in Span(b, PAGE_UNITS);
    forall u: nat | u in held ensures !IsFree(l2, u) {
      assert u !in Span(b, PAGE_UNITS);
    }
    forall c: nat | c in live ensures u2[c] == live[c] {
      LiveSpan(held, live, c, c);
    }
  }

  lemma TakeFacts(next: seq<nat>, units: seq<nat>, ring: seq<nat>, arena: nat, i: nat, c: nat, want: nat, l: seq<Block>)
    requires GoodList(next, units, ring, arena) && l == ToBlocks(ring, units) && want >= 1
    requires i < |ring| && c == After(|ring|, i) && l[c].n >= want && (want >= 2 || ring[c] != arena)
    ensures ring[c] == l[c].base < |units| && units[ring[c]] == l[c].n && ring[c] + l[c].n <= |units|
    ensures Allocated(l, Carve(l, c, want), ring[c], want) && Total(Carve(l, c, want)) == Total(l) - want
    ensures forall p: nat | ring[c] <= p < ring[c] + want :: IsFree(l, p)
    ensures l[c].n > want ==> IsFree(l, ring[c] + want)
    ensures !IsFree(l, arena + 1) && (arena > 0 ==> !IsFree(l, arena - 1))
  {
    hide ToBlocks, Carve, Cyclic;
    FitFacts(next, units, ring, arena, i, want);
    CarveFacts(l, c, want);
    ArenaIsolated(next, units, ring, arena);
    forall p: nat | ring[c] <= p < ring[c] + l[c].n ensures IsFree(l, p) {
      assert l[c].Holds(p);
    }
  }

  const SLOB_UNIT: nat := 8

  function SlobUnits(size: nat): nat {
    (size + SLOB_UNIT - 1) / SLOB_UNIT
  }

  lemma LiveFacts(l: seq<Block>, units: seq<nat>, arena: nat, held: set<nat>, live: map<nat, nat>, pages: nat, b: nat)
    requires Owned(l, units, arena, held, live, pages) && b in live
    ensures b < |units| && units[b] == live[b] >= 1 && b + live[b] <= |units| && b + live[b] != arena && arena + 1 != b
    ensures forall p: nat | b <= p < b + live[b] :: !IsFree(l, p)
  {
    hide IsFree, Total, Span;
    forall p: nat | b <= p < b + live[b] ensures p in held && p < |units| && !IsFree(l, p) {
      LiveSpan(held, live, b, p);
    }
    LiveSpan(held, live, b, b + live[b] - 1);
  }

  lemma CarveThenFree(l: seq<Block>, c: nat, n: nat, l2: seq<Block>)
    requires Coalesced(l) && c < |l| && 0 < n <= l[c].n && Freed(Carve(l, c, n), l2, l[c].base, n)
    ensures l2 == l
  {
    hide IsFree, Carve;
    CarveFacts(l, c, n);
    RemoveFacts(l, c);
    assert forall p: nat | l[c].base <= p < l[c].base + n :: l[c].Holds(p);
    FreeUndoesAlloc(l, Carve(l, c, n), l2, l[c].base, n);
  }

  predicate NoFit(l: seq<Block>, want: nat) {
    forall j | 0 <= j < |l| :: l[j].n < want
  }

  /** A stretch of free units lies within one entry of a coalesced list. */
  lemma {:induction false} OneEntry(l: seq<Block>, p: nat, n: nat, j: nat)
    requires Coalesced(l) && n > 0 && (forall u: nat | p <= u < p + n :: IsFree(l, u)) && j < |l| && l[j].Holds(p)
    ensures l[j].Holds(p + n - 1)
  {
    if n > 1 {
      OneEntry(l, p, n - 1, j);
      assert IsFree(l, p + n - 1);
      var m :| 0 <= m < |l| && l[m].Holds(p + n - 1);
      assert m == j;
    }
  }

  /** Once a page has been added there is an entry for every request slob_alloc accepts. */
  lemma PageFits(l: seq<Block>, l2: seq<Block>, p: nat, want: nat)
    requires Freed(l, l2, p, PAGE_UNITS) && want <= PAGE_UNITS
    ensures !NoFit(l2, want)
  {
    forall u: nat | p <= u < p + PAGE_UNITS ensures IsFree(l2, u) {}
    assert IsFree(l2, p);
    var j :| 0 <= j < |l2| && l2[j].Holds(p);
    OneEntry(l2, p, PAGE_UNITS, j);
  }

  class Heap {
    const units: array<nat>
    const next: array<nat>
    const arena: nat
    var slobfree: nat
    /** The free blocks, in address order */
    ghost var ring: seq<nat>
    /** Units handed out, the outstanding blocks with their sizes, and the number of pages obtained */
    ghost var held: set<nat>
    ghost var live: map<nat, nat>
    ghost var pages: nat

    ghost function Blocks(): (l: seq<Block>)
      reads this`ring, units
    {
      ToBlocks(ring, units[..])
    }

    /**
      The free list is a cycle in address order of disjoint, coalesced blocks, and slobfree and the arena are on it.
      */
    ghost predicate Listed()
      reads this, units, next
    {
      units != next && units.Length == next.Length && GoodList(next[..], units[..], ring, arena) && slobfree in ring
    }

    ghost predicate Valid()
      reads this, units, next
    {
      Listed() && Owned(Blocks(), units[..], arena, held, live, pages)
    }

    /** The initial list: the arena block, linked to itself */
    constructor (size: nat, arena: nat)
      requires arena < size
      ensures Valid() && Blocks() == [Block(arena, 1)] && held == {} && live == map[] && pages == 0
      ensures this.arena == arena && units.Length == size && fresh(units) && fresh(next)
    {
      units := new nat[size](_ => 1);
      next := new nat[size](_ => arena);
      this.arena := arena;
      slobfree, ring := arena, [arena];
      held, live, pages := {}, map[], 0;
      new;
      assert Blocks() == [Block(arena, 1)];
      TotalOne(Block(arena, 1));
    }

    /** The search of slob_free: the node behind which b belongs. It ends because it comes round to that node. */
    method FindGap(b: nat) returns (cur: nat, ghost i: nat, ghost k: nat)
      requires Cyclic(next[..], ring) && slobfree in ring && b !in ring
      ensures Gap(ring, i, k, b) && cur == ring[i]
    {
      hide Ascending, Chained;
      cur := slobfree;
      i :| 0 <= i < |ring| && ring[i] == slobfree;
      ghost var t, tk := GapExists(ring, b);
      k := SearchStops(next[..], ring, i, b);
      while !(b > cur && b < next[cur])
        invariant i < |ring| && cur == ring[i] < next.Length
        invariant b > cur && b < next[cur] ==> Gap(ring, i, k, b)
        decreases if i <= t then t - i else t - i + |ring|
      {
        k := SearchStops(next[..], ring, i, b);
        if cur >= next[cur] && (b > cur || b < next[cur]) {
          break;
        }
        NextOf(next[..], ring, i);
        if i == t {
          GapStops(next[..], ring, t, tk, b);
        }
        cur := next[cur];
        i := After(|ring|, i);
        NextOf(next[..], ring, i);
        k := SearchStops(next[..], ring, i, b);
      }
    }

    /** The stores of slob_free, once the search has ended at cur = ring[i] */
    method Splice(b: nat, cur: nat, ghost i: nat, ghost k: nat, ghost up: bool, ghost down: bool)
      requires units.Length == next.Length && units != next && b < units.Length && cur != b
      requires i < |ring| && k <= |ring| && cur == ring[i] < units.Length && next[cur] < units.Length && b != next[cur]
      requires (forall j | 0 <= j < |ring| :: ring[j] < units.Length) && (k > 0 ==> i == k - 1) && (down ==> k > 0)
      requires (up <==> b + units[b] == next[cur]) && (up ==> k < |ring| && next[cur] == ring[k] != cur)
      requires down <==> cur + units[cur] == b
      modifies this`slobfree, units, next
      ensures units[..] == FreedUnits(old(units[..]), ring, k, b, up, down) && slobfree == cur
      ensures next[..] == FreedNext(old(next[..]), cur, b, up, down)
    {
      var nxt := next[cur];
      if b + units[b] == nxt {
        units[b] := units[b] + units[nxt];
        next[b] := next[nxt];
      } else {
        next[b] := nxt;
      }
      if cur + units[cur] == b {
        units[cur] := units[cur] + units[b];
        next[cur] := next[b];
      } else {
        next[cur] := b;
      }
      slobfree := cur;
    }

    /** slob_free of a block whose header is in place */
    method FreeBlock(b: nat)
      requires Listed() && b < units.Length && units[b] > 0 && b + units[b] <= units.Length
      requires b + units[b] != arena && arena + 1 != b
      requires forall p: nat | b <= p < b + units[b] :: !IsFree(Blocks(), p)
      modifies this`slobfree, this`ring, units, next
      ensures Listed() && Freed(old(Blocks()), Blocks(), b, old(units[b]))
      ensures Total(Blocks()) == Total(old(Blocks())) + old(units[b])
      ensures forall a: nat | a < units.Length && a != b && !IsFree(old(Blocks()), a) ::
                units[..][a] == old(units[..])[a]
    {
      hide IsFree, Total, ToBlocks, Cyclic, Coalesced;
      ghost var l := Blocks();
      NotOnRing(ring, units[..], b);
      var cur, i, k := FindGap(b);
      ghost var next0, units0, ring0 := next[..], units[..], ring;
      NextOf(next0, ring, i);
      NextOf(next0, ring, After(|ring|, i));
      assert next[cur] in ring && cur in ring;
      ghost var up, down := b + units[b] == next[cur], cur + units[cur] == b;
      AtGapFacts(next0, units0, ring0, arena, i, k, b, up, down);
      Splice(b, cur, i, k, up, down);
      ring := FreedRing(ring, k, b, up, down);
      FreeOutcome(next0, units0, ring0, arena, i, k, b, up, down, ring, units[..]);
      FreedHeaders(units0, ring0, k, b, up, down);
    }

    /** One round of the search in slob_alloc, from the block behind slobfree up to slobfree itself */
    method Scan(want: nat, ghost l: seq<Block>, ghost s: nat)
      returns (found: bool, prev: nat, cur: nat, ghost i: nat, ghost c: nat)
      requires units.Length == next.Length && Cyclic(next[..], ring) && l == Blocks() && s < |ring|
      requires ring[s] == slobfree
      ensures found ==>
                i < |ring| && c == After(|ring|, i) && prev == ring[i] && cur == ring[c] && NextFit(l, s, want, c)
      ensures !found ==> forall j | 0 <= j < |l| :: l[j].n < want
    {
      hide Ascending, Chained, ToBlocks;
      NextOf(next[..], ring, s);
      i, c := s, After(|ring|, s);
      prev := slobfree;
      cur := next[prev];
      while true
        invariant i < |ring| && c == After(|ring|, i) && prev == ring[i] && cur == ring[c]
        invariant forall j | 0 <= j < |l| && Steps(|l|, s, j) < Steps(|l|, s, c) :: l[j].n < want
        decreases |ring| - Steps(|ring|, s, c)
      {
        NextOf(next[..], ring, c);
        if units[cur] >= want {
          found := true;
          return;
        }
        Distinctness(ring, s);
        if cur == slobfree {
          found := false;
          return;
        }
        StepsAfter(|ring|, s, c);
        prev, cur := cur, next[cur];
        i, c := c, After(|ring|, c);
      }
    }

    /** slob_alloc takes the whole of the entry it found */
    method CutWhole(prev: nat, cur: nat, ghost i: nat, ghost c: nat, ghost l: seq<Block>, ghost want: nat)
      requires Listed() && l == Blocks() && want >= 1 && i < |ring| && c == After(|ring|, i)
      requires prev == ring[i] && cur == ring[c] && l[c].n == want && (want >= 2 || cur != arena)
      modifies this`slobfree, this`ring, next
      ensures Listed() && Blocks() == Carve(l, c, want) && cur < units.Length && units[cur] == want
    {
      hide GoodList, ToBlocks, Carve, Removed, After;
      ghost var next0: seq<nat> := next[..];
      FitFacts(next0, units[..], ring, arena, i, want);
      CutExact(next0, units[..], ring, arena, i, c, want, l);
      next[prev] := next[cur];
      assert next[..] == next0[prev := next0[cur]];
      ring := Removed(ring, c);
      slobfree := prev;
    }

    /** slob_alloc takes the first units of the entry it found */
    method CutPart(prev: nat, cur: nat, want: nat, ghost i: nat, ghost c: nat, ghost l: seq<Block>)
      requires Listed() && l == Blocks() && want >= 1 && i < |ring| && c == After(|ring|, i)
      requires prev == ring[i] && cur == ring[c] && l[c].n > want && cur + want < units.Length
      requires (want >= 2 || cur != arena)
      modifies this`slobfree, this`ring, units, next
      ensures Listed() && Blocks() == Carve(l, c, want) && cur < units.Length
      ensures units[..] == old(units[..])[cur + want := l[c].n - want][cur := want]
    {
      hide GoodList, ToBlocks, Carve, Removed, After;
      ghost var next0: seq<nat>, units0: seq<nat> := next[..], units[..];
      FitFacts(next0, units0, ring, arena, i, want);
      var x := cur + want;
      CutFront(next0, units0, ring, arena, i, c, x, want, l);
      next[prev] := x;
      units[x] := units[cur] - want;
      next[x] := next[cur];
      units[cur] := want;
      assert next[..] == next0[prev := x][x := next0[cur]];
      assert units[..] == units0[x := l[c].n - want][cur := want];
      ring := ring[c := x];
      slobfree := prev;
    }

    /** A page the SLOB allocator may be given: owned by nobody, and not next to the arena */
    ghost predicate Fresh(p: nat)
      reads this, units
    {
      && p + PAGE_UNITS <= units.Length && p + PAGE_UNITS != arena && arena + 1 != p
      && (forall u: nat | p <= u < p + PAGE_UNITS :: u !in held && !IsFree(Blocks(), u))
    }

    /** slob_free(cur, PAGE_SIZE) of a page just obtained */
    method AddPage(p: nat)
      requires Valid() && Fresh(p)
      modifies this, units, next
      ensures Valid() && Freed(old(Blocks()), Blocks(), p, PAGE_UNITS) && held == old(held) && live == old(live)
      ensures pages == old(pages) + 1
    {
      hide IsFree, Total, ToBlocks, GoodList, Freed;
      ghost var l, units0 := Blocks(), units[..];
      assert !IsFree(l, p);
      HeaderWrite(next[..], units[..], ring, arena, p, PAGE_UNITS);
      units[p] := PAGE_UNITS;
      assert units[..] == units0[p := PAGE_UNITS];
      FreeBlock(p);
      pages := pages + 1;
      OwnedAfterPage(l, Blocks(), units0, units[..], arena, held, live, pages - 1, p);
    }

    /** slob_alloc with the entry found: the block leaves the list and is held from now on */
    method Take(prev: nat, cur: nat, want: nat, ghost i: nat, ghost c: nat, ghost l: seq<Block>)
      requires Valid() && l == Blocks() && want >= 1 && i < |ring| && c == After(|ring|, i)
      requires prev == ring[i] && cur == ring[c] && l[c].n >= want && (want >= 2 || cur != arena)
      modifies this, units, next
      ensures Valid() && Blocks() == Carve(l, c, want) && cur == l[c].base && pages == old(pages)
      ensures held == old(held) + Span(cur, want) && cur !in old(live) && live == old(live)[cur := want]
    {
      hide IsFree, Total, ToBlocks, GoodList, Carve, Span, After, Owned, Coalesced;
      ghost var units0: seq<nat> := units[..];
      TakeFacts(next[..], units0, ring, arena, i, c, want, l);
      assert IsFree(l, cur);
      if units[cur] == want {
        CutWhole(prev, cur, i, c, l, want);
        assert units[..] == units0;
      } else {
        CutPart(prev, cur, want, i, c, l);
        assert units[..] == units0[cur + want := l[c].n - want][cur := want];
        assert forall a: nat | a < |units0| && a != cur && a != cur + want :: units[..][a] == units0[a];
      }
      assert units[..][cur] == want;
      held, live := held + Span(cur, want), live[cur := want];
      OwnedAfterCut(l, Blocks(), units0, units[..], arena, old(held), old(live), pages, cur, want);
    }

    /** The request does not take the arena entry. */
    predicate SparesArena(want: nat)
      reads this, next
    {
      want >= 2 || slobfree >= next.Length || next[slobfree] != arena
    }

    lemma HasEntry()
      requires Listed()
      ensures |Blocks()| > 0 && Blocks()[0].n >= 1
    {}

    lemma FirstBehind(c: nat, s: nat)
      requires Listed() && s < |ring| && ring[s] == slobfree && NextFit(Blocks(), s, 1, c)
      ensures slobfree < next.Length && ring[c] == next[slobfree]
    {
      NextOf(next[..], ring, s);
      var d := After(|ring|, s);
      assert Blocks()[d].n >= 1;
      assert Steps(|ring|, s, d) == 1;
    }

    /**
      slob_alloc: `page` is what __slob_get_free_page would return. It is asked for at most once, exactly when no entry
      fits; the block returned is the front of the first entry behind slobfree that fits. A request of one unit, which
      only kmalloc(0) makes, must not come when that entry is the arena.
      */
    method Alloc(want: nat, page: Option<nat>) returns (r: Option<nat>, took: bool)
      requires Valid() && 1 <= want < PAGE_UNITS && SparesArena(want) && (page.Some? ==> Fresh(page.value))
      modifies this, units, next
      ensures Valid() && pages == old(pages) + (if took then 1 else 0)
      ensures took <==> page.Some? && NoFit(old(Blocks()), want)
      ensures r.None? <==> page.None? && NoFit(old(Blocks()), want)
      ensures r.None? ==> Blocks() == old(Blocks()) && held == old(held) && live == old(live)
      ensures r.Some? ==>
                r.value !in old(live) && live == old(live)[r.value := want] && held == old(held) + Span(r.value, want)
      ensures r.Some? ==> exists l: seq<Block>, c: nat ::
                (if took then Freed(old(Blocks()), l, page.value, PAGE_UNITS) else l == old(Blocks())) &&
                c < |l| && l[c].n >= want && l[c].base == r.value && Blocks() == Carve(l, c, want)
      ensures r.Some? && !took ==> exists s: nat, c: nat | s < |old(ring)| && old(ring)[s] == old(slobfree) ::
                NextFit(old(Blocks()), s, want, c) && old(Blocks())[c].base == r.value
    {
      hide IsFree, Total, ToBlocks, Carve, Span, After, Owned, Coalesced, Steps;
      ghost var l0 := Blocks();
      took := false;
      while true
        invariant Valid() && held == old(held) && live == old(live) && pages == old(pages) + (if took then 1 else 0)
        invariant took ==> page.Some? && NoFit(l0, want) && Freed(l0, Blocks(), page.value, PAGE_UNITS)
        invariant took ==> !NoFit(Blocks(), want)
        invariant !took ==> Blocks() == l0 && ring == old(ring) && slobfree == old(slobfree)
        invariant !took && page.Some? ==> Fresh(page.value)
        invariant if took then want >= 2 else SparesArena(want)
        decreases !took
      {
        ghost var l := Blocks();
        ghost var s :| 0 <= s < |ring| && ring[s] == slobfree;
        var found, prev, cur, i, c := Scan(want, l, s);
        if found {
          if want == 1 {
            FirstBehind(c, s);
          }
          Take(prev, cur, want, i, c, l);
          r := Some(cur);
          return;
        }
        assert NoFit(l, want);
        assert want >= 2 by {
          HasEntry();
        }
        if page.None? {
          r := None;
          return;
        }
        AddPage(page.value);
        took := true;
        PageFits(l0, Blocks(), page.value, want);
      }
    }

    /** slob_free: with size 0 the size comes from the block's own header */
    method Free(b: nat, size: nat)
      requires Valid() && b in live && (size != 0 ==> SlobUnits(size) == live[b])
      modifies this, units, next
      ensures Valid() && Freed(old(Blocks()), Blocks(), b, old(live[b])) && pages == old(pages)
      ensures held == old(held) - Span(b, old(live[b])) && live == old(live) - {b}
    {
      hide IsFree, Total, ToBlocks, GoodList, Freed, Span, Owned;
      ghost var l, units0 := Blocks(), units[..];
      LiveFacts(l, units0, arena, held, live, pages, b);
      if size != 0 {
        units[b] := SlobUnits(size);
      }
      assert units[..] == units0;
      FreeBlock(b);
      OwnedAfterFree(l, Blocks(), units0, units[..], arena, held, live, pages, b);
      held, live := held - Span(b, live[b]), live - {b};
    }

    /**
      __kmalloc of a size on its small-block path; the block starts with a header unit, and the caller gets what
      follows. The sizes at the top of the path's range trip the assertion at the head of slob_alloc.
      */
    method Kmalloc(size: nat, page: Option<nat>) returns (r: Option<nat>, took: bool, panic: bool)
      requires Valid() && size < PAGE_UNITS * SLOB_UNIT - SLOB_UNIT && (page.Some? ==> Fresh(page.value))
      requires size == 0 ==> SparesArena(1)
      modifies this, units, next
      ensures Valid() && (panic <==> size >= 4080)
      ensures r.None? <==> panic || (page.None? && NoFit(old(Blocks()), SlobUnits(size + SLOB_UNIT)))
      ensures r.None? ==> Blocks() == old(Blocks()) && live == old(live)
      ensures r.Some? ==> r.value > 0 && r.value - 1 !in old(live) && r.value - 1 in live
      ensures r.Some? ==> live == old(live)[r.value - 1 := SlobUnits(size + SLOB_UNIT)]
      ensures r.Some? ==> (live[r.value - 1] - 1) * SLOB_UNIT >= size
      ensures r.Some? && size > 0 ==> (live[r.value - 1] - 2) * SLOB_UNIT < size
      ensures r.Some? && !took ==> exists c: nat | c < |old(Blocks())| && old(Blocks())[c].n >= live[r.value - 1] ::
                old(Blocks())[c].base == r.value - 1 && Blocks() == Carve(old(Blocks()), c, live[r.value - 1])
    {
      hide Freed, Carve, Span, NextFit, Coalesced, Owned, GoodList, NoFit, ToBlocks, Steps;
      if size + SLOB_UNIT + SLOB_UNIT >= PAGE_UNITS * SLOB_UNIT {
        return None, false, true;
      }
      panic := false;
      var m;
      m, took := Alloc(SlobUnits(size + SLOB_UNIT), page);
      r := match m case None => None case Some(b) => Some(b + 1);
    }

    /** kfree of a block that came from the small-block path */
    method Kfree(block: nat)
      requires Valid() && block > 0 && block - 1 in live
      modifies this, units, next
      ensures Valid() && Freed(old(Blocks()), Blocks(), block - 1, old(live[block - 1]))
      ensures live == old(live) - {block - 1}
      ensures held == old(held) - Span(block - 1, old(live[block - 1])) && pages == old(pages)
    {
      hide IsFree, Owned, GoodList, ToBlocks, Coalesced, Span, Freed;
      Free(block - 1, 0);
    }

    /** kfree undoes kmalloc: the exact list is back, unless a page had to be added. */
    method KmallocThenKfree(size: nat, page: Option<nat>) returns (took: bool)
      requires Valid() && size < PAGE_UNITS * SLOB_UNIT - SLOB_UNIT && (page.Some? ==> Fresh(page.value))
      requires size == 0 ==> SparesArena(1)
      modifies this, units, next
      ensures Valid() && (!took ==> Blocks() == old(Blocks()))
    {
      hide IsFree, Carve, Owned, ToBlocks, Span, NoFit, Freed, Coalesced, Cyclic;
      ghost var l := Blocks();
      var r, panic;
      r, took, panic := Kmalloc(size, page);
      if r.Some? {
        ghost var n, c := live[r.value - 1], 0;
        if !took {
          c :| 0 <= c < |l| && l[c].n >= n && l[c].base == r.value - 1 && Blocks() == Carve(l, c, n);
        }
        Kfree(r.value);
        if !took {
          CarveThenFree(l, c, n, Blocks());
        }
      }
    }
  }
}
