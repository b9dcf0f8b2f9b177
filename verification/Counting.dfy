/** Finite sets and duplicate-free sequences, shared by the models. */
module Counting {

  datatype Option<T> = None | Some(value: T)

  predicate Distinct<T(==)>(q: seq<T>) {
    forall a, b | 0 <= a < b < |q| :: q[a] != q[b]
  }

  /** The numbers below n. */
  function Below(n: nat): (s: set<nat>)
    ensures |s| == n
    ensures forall k: nat :: k in s <==> k < n
  {
    if n == 0 then {} else Below(n - 1) + {n - 1}
  }

  function Elements<T>(q: seq<T>): (s: set<T>)
  {
    set x | x in q
  }

  lemma {:induction false} DistinctSize<T>(q: seq<T>)
    requires Distinct(q)
    ensures |Elements(q)| == |q|
  {
    if q != [] {
      var last := |q| - 1;
      DistinctSize(q[..last]);
      assert Elements(q) == Elements(q[..last]) + {q[last]};
      assert q[last] !in q[..last];
    } else {
      assert Elements(q) == {};
    }
  }

  lemma {:induction false} SubsetSize<T>(a: set<T>, b: set<T>)
    requires a <= b
    ensures |a| <= |b|
    ensures |a| == |b| ==> a == b
    decreases b
  {
    if x :| x in a {
      SubsetSize(a - {x}, b - {x});
      assert a == (a - {x}) + {x} && b == (b - {x}) + {x};
    }
  }

  /** A duplicate-free sequence of numbers below n that misses one of them is shorter than n. */
  lemma Pigeonhole(q: seq<nat>, n: nat, missing: nat)
    requires Distinct(q) && (forall x | x in q :: x < n)
    requires missing < n && missing !in q
    ensures |q| < n
  {
    DistinctSize(q);
    SubsetSize(Elements(q) + {missing}, Below(n));
  }

  /** Taking the head off a duplicate-free sequence removes exactly that element. */
  lemma DistinctTail<T>(q: seq<T>)
    requires Distinct(q) && q != []
    ensures Distinct(q[1..])
    ensures forall x :: x in q[1..] <==> x in q && x != q[0]
  {
    assert q == [q[0]] + q[1..];
  }

  lemma DistinctAppend<T>(q: seq<T>, x: T)
    requires Distinct(q) && x !in q
    ensures Distinct(q + [x])
  {
  }

  /** s with x put in front of position k. */
  function Inserted<T>(s: seq<T>, k: nat, x: T): (r: seq<T>)
    requires k <= |s|
    ensures |r| == |s| + 1
    ensures forall j {:trigger r[j]} | 0 <= j < |r| :: r[j] == (if j < k then s[j] else if j == k then x else s[j - 1])
  {
    s[..k] + [x] + s[k..]
  }

  /** s without the element at position k. */
  function Removed<T>(s: seq<T>, k: nat): (r: seq<T>)
    requires k < |s|
    ensures |r| == |s| - 1
    ensures forall j {:trigger r[j]} | 0 <= j < |r| :: r[j] == (if j < k then s[j] else s[j + 1])
  {
    s[..k] + s[k + 1..]
  }

  lemma InsertedMembers<T>(s: seq<T>, k: nat, x: T)
    requires k <= |s|
    ensures forall y :: y in Inserted(s, k, x) <==> y in s || y == x
  {
    assert s == s[..k] + s[k..];
  }

  lemma RemovedMembers<T>(s: seq<T>, k: nat)
    requires k < |s| && Distinct(s)
    ensures forall y :: y in Removed(s, k) <==> y in s && y != s[k]
    ensures Distinct(Removed(s, k))
  {
    var r := Removed(s, k);
    forall y | y in s && y != s[k] ensures y in r {
      var i :| 0 <= i < |s| && s[i] == y;
      assert y == r[if i < k then i else i - 1];
    }
  }

  lemma RemoveInserted<T>(s: seq<T>, k: nat)
    requires k < |s|
    ensures Inserted(Removed(s, k), k, s[k]) == s
  {}
}
