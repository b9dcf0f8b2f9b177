/** kern/fs/sfs/bitmap.c: a set bit marks a free block. */
module Bits {

  function CountTrue(s: seq<bool>): nat {
    if s == [] then 0 else (if s[0] then 1 else 0) + CountTrue(s[1..])
  }

  lemma {:induction false} CountSplit(a: seq<bool>, b: seq<bool>)
    ensures CountTrue(a + b) == CountTrue(a) + CountTrue(b)
  {
    if a == [] {
      assert a + b == b;
    } else {
      assert (a + b)[1..] == a[1..] + b;
      CountSplit(a[1..], b);
    }
  }

  lemma CountUpdate(s: seq<bool>, i: nat, v: bool)
    requires i < |s|
    ensures CountTrue(s[i := v]) == CountTrue(s) - (if s[i] then 1 else 0) + (if v then 1 else 0)
  {
    CountOne(s, i);
    CountOne(s[i := v], i);
    assert s[i := v][..i] == s[..i] && s[i := v][i + 1..] == s[i + 1..];
  }

  lemma CountOne(s: seq<bool>, i: nat)
    requires i < |s|
    ensures CountTrue(s) == CountTrue(s[..i]) + (if s[i] then 1 else 0) + CountTrue(s[i + 1..])
  {
    assert s == s[..i] + ([s[i]] + s[i + 1..]);
    CountSplit(s[..i], [s[i]] + s[i + 1..]);
    assert ([s[i]] + s[i + 1..])[1..] == s[i + 1..];
  }

  lemma {:induction false} CountZero(s: seq<bool>)
    ensures CountTrue(s) == 0 <==> forall i | 0 <= i < |s| :: !s[i]
  {
    if s != [] {
      CountZero(s[1..]);
      assert forall i | 0 < i < |s| :: s[i] == s[1..][i - 1];
    }
  }

  /** The bits from lo up to hi, and no others, are set. */
  lemma {:induction false} CountRange(s: seq<bool>, lo: nat, hi: nat)
    requires lo <= hi <= |s| && forall i | 0 <= i < |s| :: s[i] <==> lo <= i < hi
    ensures CountTrue(s) == hi - lo
  {
    if s != [] {
      var t := s[1..];
      assert forall i {:trigger t[i]} | 0 <= i < |t| :: t[i] == s[i + 1];
      if lo > 0 {
        CountRange(t, lo - 1, hi - 1);
      } else if hi > 0 {
        CountRange(t, 0, hi - 1);
      } else {
        CountRange(t, 0, 0);
      }
    }
  }
}

module BitmapModel {
  import opened Counting

  const WORD_BITS: nat := 32

  /** The words of the map laid end to end */
  function Flatten(words: seq<seq<bool>>): (f: seq<bool>)
    requires forall i | 0 <= i < |words| :: |words[i]| == WORD_BITS
    ensures |f| == |words| * WORD_BITS && forall k | 0 <= k < |f| :: f[k] == words[k / WORD_BITS][k % WORD_BITS]
  {
    seq(|words| * WORD_BITS, k requires 0 <= k < |words| * WORD_BITS => words[k / WORD_BITS][k % WORD_BITS])
  }

  /** b is the lowest set bit. */
  predicate FirstSet(f: seq<bool>, b: nat) { b < |f| && f[b] && forall k | 0 <= k < b :: !f[k] }

  /** Word i of a freemap: its bits from 32 * i on, clear past the end */
  function WordOf(free: seq<bool>, i: nat): (w: seq<bool>)
    ensures |w| == WORD_BITS && forall o | 0 <= o < WORD_BITS ::
              w[o] <==> i * WORD_BITS + o < |free| && free[i * WORD_BITS + o]
  {
    seq(WORD_BITS, o requires 0 <= o => i * WORD_BITS + o < |free| && free[i * WORD_BITS + o])
  }

  class Bitmap {
    const nbits: nat
    const nwords: nat
    /** Each word bit by bit */
    const map_: array<seq<bool>>

    ghost predicate Valid()
      reads map_
    {
      && map_.Length == nwords && nbits <= nwords * WORD_BITS
      && (forall i | 0 <= i < nwords :: |map_[i]| == WORD_BITS)
      && (forall k | nbits <= k < nwords * WORD_BITS :: !map_[k / WORD_BITS][k % WORD_BITS])
    }

    ghost function Contents(): (f: seq<bool>)
      reads map_
      requires Valid()
      ensures |f| == nwords * WORD_BITS && forall k | 0 <= k < |f| :: f[k] == map_[k / WORD_BITS][k % WORD_BITS]
    {
      Flatten(map_[..])
    }

    /** The bits of the map are those, and there are no more. */
    ghost predicate Holds(free: seq<bool>)
      requires Valid()
      reads map_
    {
      |free| == nbits && forall k | 0 <= k < nbits :: Contents()[k] == free[k]
    }

    /** bitmap_create: every bit set, and those past the end of the last word cleared */
    constructor (nbits: nat)
      requires nbits > 0
      ensures Valid() && this.nbits == nbits && nwords == (nbits + WORD_BITS - 1) / WORD_BITS && fresh(map_)
      ensures forall k | 0 <= k < nwords * WORD_BITS :: Contents()[k] <==> k < nbits
    {
      var n := (nbits + WORD_BITS - 1) / WORD_BITS;
      var m := new seq<bool>[n](_ => seq(WORD_BITS, _ => true));
      if nbits != n * WORD_BITS {
        var ix, overbits := n - 1, nbits - (n - 1) * WORD_BITS;
        assert nbits / WORD_BITS == ix && 0 < overbits < WORD_BITS;
        while overbits < WORD_BITS
          invariant nbits - ix * WORD_BITS <= overbits <= WORD_BITS
          invariant forall i | 0 <= i < n :: |m[i]| == WORD_BITS
          invariant forall i | 0 <= i < ix :: forall o | 0 <= o < WORD_BITS :: m[i][o]
          invariant forall o | 0 <= o < WORD_BITS :: m[ix][o] <==> !(nbits - ix * WORD_BITS <= o < overbits)
        {
          m[ix] := m[ix][overbits := !m[ix][overbits]];
          overbits := overbits + 1;
        }
      }
      this.nbits, nwords, map_ := nbits, n, m;
    }

    /** The words on the disk, read into the data of the map (sfs_init_freemap) */
    method Fill(free: seq<bool>)
      requires Valid() && |free| == nbits
      modifies map_
      ensures Valid() && Holds(free)
    {
      for ix := 0 to nwords
        invariant forall i | 0 <= i < nwords :: |map_[i]| == WORD_BITS
        invariant forall i | 0 <= i < ix :: map_[i] == WordOf(free, i)
      {
        map_[ix] := WordOf(free, ix);
      }
    }

    /** bitmap_test */
    method Test(index: nat) returns (set_: bool)
      requires Valid() && index < nbits
      ensures set_ == Contents()[index]
    {
      set_ := map_[index / WORD_BITS][index % WORD_BITS];
    }

    /** bitmap_free, whose assertion that the bit is clear is the precondition */
    method Free(index: nat)
      requires Valid() && index < nbits && !Contents()[index]
      modifies map_
      ensures Valid() && Contents() == old(Contents())[index := true]
    {
      map_[index / WORD_BITS] := map_[index / WORD_BITS][index % WORD_BITS := true];
    }

    /** bitmap_alloc: clears the lowest set bit, if there is one */
    method Alloc() returns (index: Option<nat>)
      requires Valid()
      modifies map_
      ensures Valid()
      ensures match index
        case None => Contents() == old(Contents()) && forall k | 0 <= k < nwords * WORD_BITS :: !old(Contents())[k]
        case Some(b) => b < nbits && Contents() == old(Contents())[b := false] && FirstSet(old(Contents()), b)
    {
      ghost var before := Contents();
      for ix := 0 to nwords
        invariant Valid() && Contents() == before
        invariant forall k | 0 <= k < ix * WORD_BITS :: !before[k]
      {
        if map_[ix] != seq(WORD_BITS, _ => false) {
          for offset := 0 to WORD_BITS
            invariant Valid() && Contents() == before && map_[ix] != seq(WORD_BITS, _ => false)
            invariant forall o | 0 <= o < offset :: !map_[ix][o]
            invariant forall k | 0 <= k < ix * WORD_BITS + offset :: !before[k]
          {
            ghost var b := ix * WORD_BITS + offset;
            assert b / WORD_BITS == ix && b % WORD_BITS == offset && before[b] == map_[ix][offset];
            if map_[ix][offset] {
              map_[ix] := map_[ix][offset := false];
              return Some(ix * WORD_BITS + offset);
            }
          }
          assert false;
        }
      }
      return None;
    }
  }
}
