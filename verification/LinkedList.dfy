/** The circular doubly linked lists of libs/list.h, over nodes named by index. */
module LinkedList {
  import opened Counting

  /**
    The nodes of `ring`, whose two ends are the list head, in the order in which next and prev connect them;
    no node but the head occurs twice.
    */
  ghost predicate Linked(next: seq<nat>, prev: seq<nat>, ring: seq<nat>) {
    && |ring| >= 2 && |prev| == |next| && ring[0] == ring[|ring| - 1]
    && (forall k | 0 <= k < |ring| :: ring[k] < |next|)
    && (forall a, b | 0 <= a < b < |ring| - 1 :: ring[a] != ring[b])
    && (forall a, b | 0 <= a < b < |ring| && b <= a + 1 :: next[ring[a]] == ring[b] && prev[ring[b]] == ring[a])
  }

  lemma RingEnds(ring: seq<nat>)
    requires |ring| >= 2 && ring[0] == ring[|ring| - 1]
    requires forall a, b | 0 <= a < b < |ring| - 1 :: ring[a] != ring[b]
    ensures forall a, b | 0 < a < b < |ring| :: ring[a] != ring[b]
  {}

  /** __list_add: r2 is the ring with elm behind position k. */
  lemma InsertLinked(next: seq<nat>, prev: seq<nat>, ring: seq<nat>, k: nat, elm: nat, r2: seq<nat>)
    requires Linked(next, prev, ring) && k < |ring| - 1 && elm < |next| && elm !in ring
    requires |r2| == |ring| + 1
    requires forall j {:trigger r2[j]} | 0 <= j < |r2| ::
               r2[j] == (if j < k + 1 then ring[j] else if j == k + 1 then elm else ring[j - 1])
    ensures Linked(next[ring[k] := elm][elm := ring[k + 1]], prev[ring[k + 1] := elm][elm := ring[k]], r2)
  {
    RingEnds(ring);
    var n2, p2 := next[ring[k] := elm][elm := ring[k + 1]], prev[ring[k + 1] := elm][elm := ring[k]];
    forall a, b | 0 <= a < b < |r2| && b <= a + 1 ensures n2[r2[a]] == r2[b] && p2[r2[b]] == r2[a] {
      if a < k {
        assert next[ring[a]] == ring[b];
      } else if a > k + 1 {
        assert next[ring[a - 1]] == ring[b - 1];
      }
    }
  }

  /** __list_del: r2 is the ring without position k. */
  lemma DeleteLinked(next: seq<nat>, prev: seq<nat>, ring: seq<nat>, k: nat, r2: seq<nat>)
    requires Linked(next, prev, ring) && 0 < k < |ring| - 1
    requires |r2| == |ring| - 1
    requires forall j {:trigger r2[j]} | 0 <= j < |r2| :: r2[j] == (if j < k then ring[j] else ring[j + 1])
    ensures Linked(next[ring[k - 1] := ring[k + 1]], prev[ring[k + 1] := ring[k - 1]], r2)
  {
    RingEnds(ring);
    var n2, p2 := next[ring[k - 1] := ring[k + 1]], prev[ring[k + 1] := ring[k - 1]];
    forall a, b | 0 <= a < b < |r2| && b <= a + 1 ensures n2[r2[a]] == r2[b] && p2[r2[b]] == r2[a] {
      if a < k - 1 {
        assert next[ring[a]] == ring[b];
      } else if a > k - 1 {
        assert next[ring[a + 1]] == ring[b + 1];
      }
    }
  }

  /** One list: the node `head` stands for the list_entry_t that is not part of any element. */
  class List {
    const next: array<nat>
    const prev: array<nat>
    const head: nat
    /** The elements, in list order */
    ghost var order: seq<nat>

    ghost function Ring(): seq<nat>
      reads this
    {
      [head] + order + [head]
    }

    ghost predicate Valid()
      reads this, next, prev
    {
      next != prev && Linked(next[..], prev[..], Ring())
    }

    /** What callers need of a valid list */
    lemma ValidFacts()
      requires Valid()
      ensures head < next.Length == prev.Length && head !in order && Distinct(order)
      ensures forall k | 0 <= k < |order| :: order[k] < next.Length && order[k] != head
    {
      var ring := Ring();
      forall k | 0 <= k < |order| ensures order[k] < next.Length && order[k] != head {
        assert ring[k + 1] == order[k] && ring[0] == head;
      }
      forall a, b | 0 <= a < b < |order| ensures order[a] != order[b] {
        assert ring[a + 1] == order[a] && ring[b + 1] == order[b];
      }
    }

    /** list_next of the element at position k, or of the head (k == -1) */
    lemma NextFacts(k: int)
      requires Valid() && -1 <= k < |order|
      ensures (if k < 0 then head else order[k]) < next.Length
      ensures next[if k < 0 then head else order[k]] == (if k == |order| - 1 then head else order[k + 1])
    {
      RingIndex(k + 1);
    }

    /** list_init */
    constructor (size: nat, head: nat)
      requires head < size
      ensures Valid() && order == [] && this.head == head && next.Length == size && fresh(next) && fresh(prev)
    {
      next := new nat[size](i => i);
      prev := new nat[size](i => i);
      this.head := head;
      order := [];
    }

    /** __list_add between two neighbours: the new element goes to position k of the order */
    method InsertAt(elm: nat, before: nat, after: nat, ghost k: nat)
      requires Valid() && elm < next.Length && elm != head && elm !in order
      requires k <= |order| && before == Ring()[k] && after == Ring()[k + 1]
      modifies this`order, next, prev
      ensures Valid() && order == Inserted(old(order), k, elm)
    {
      ghost var n0: seq<nat>, p0: seq<nat>, ring := next[..], prev[..], Ring();
      hide Linked;
      assert elm !in ring;
      ghost var order': seq<nat> := Inserted(order, k, elm);
      hide Inserted;
      InsertLinked(n0, p0, ring, k, elm, [head] + order' + [head]);
      assert before < next.Length && after < next.Length by { RingIndex(k); }
      next[before], prev[after] := elm, elm;
      next[elm], prev[elm] := after, before;
      order := order';
      assert next[..] == n0[before := elm][elm := after];
      assert prev[..] == p0[after := elm][elm := before];
    }

    lemma RingIndex(k: nat)
      requires Valid() && k <= |order|
      ensures Ring()[k] < next.Length == prev.Length && Ring()[k + 1] < next.Length
      ensures prev[Ring()[k + 1]] == Ring()[k] && next[Ring()[k]] == Ring()[k + 1]
    {
      var a, b := Ring()[k], Ring()[k + 1];
      assert next[..][a] == b && prev[..][b] == a;
    }

    /** list_add_before(listelm, elm) */
    method AddBefore(listelm: nat, elm: nat, ghost k: nat)
      requires Valid() && elm < next.Length && elm != head && elm !in order
      requires k <= |order| && listelm == Ring()[k + 1]
      modifies this`order, next, prev
      ensures Valid() && order == Inserted(old(order), k, elm)
    {
      hide Linked;
      RingIndex(k);
      InsertAt(elm, prev[listelm], listelm, k);
    }

    /** list_add(listelm, elm) */
    method AddAfter(listelm: nat, elm: nat, ghost k: nat)
      requires Valid() && elm < next.Length && elm != head && elm !in order
      requires k <= |order| && listelm == Ring()[k]
      modifies this`order, next, prev
      ensures Valid() && order == Inserted(old(order), k, elm)
    {
      hide Linked;
      RingIndex(k);
      InsertAt(elm, listelm, next[listelm], k);
    }

    /** list_del(elm) */
    method Del(elm: nat, ghost k: nat)
      requires Valid() && k < |order| && elm == order[k]
      modifies this`order, next, prev
      ensures Valid() && order == Removed(old(order), k)
      ensures elm < next.Length == prev.Length
      ensures prev[elm] == old(prev[elm]) == Ring()[k] && next[elm] == old(next[elm]) == Ring()[k + 1]
    {
      ghost var n0: seq<nat>, p0: seq<nat>, ring := next[..], prev[..], Ring();
      RingIndex(k);
      RingIndex(k + 1);
      ghost var order': seq<nat> := Removed(order, k);
      hide Linked, Removed;
      DeleteLinked(n0, p0, ring, k + 1, [head] + order' + [head]);
      assert elm == ring[k + 1];
      var p, n := prev[elm], next[elm];
      next[p], prev[n] := n, p;
      order := order';
      assert next[..] == n0[p := n];
      assert prev[..] == p0[n := p];
    }
  }
}
