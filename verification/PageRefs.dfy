/** Two-level page tables and frame reference counts (kern/mm/pmm.c), as values. */
module PageTables {
  import opened Counting

  /** A page-table entry apart from its TLB bookkeeping bits: zero, non-zero without PTE_P, or present. */
  datatype Pte = Empty | Swapped(slot: nat) | Page(frame: nat, perm: nat)

  /** A page directory and a page number in it */
  type Key = (nat, nat)

  const NPTEENTRY: nat := 1024

  /**
    tables: the frame of the page table behind each present directory entry (directory, index);
    entries: the page-table entries, Empty when absent from the map; mem: the contents of each frame, as one value.
    */
  datatype State = State(nframes: nat, tables: map<Key, nat>, entries: map<Key, Pte>, ref: map<nat, nat>,
                         free: set<nat>, mem: map<nat, int>)
  {
    function Entry(k: Key): Pte { if k in entries then entries[k] else Empty }

    function Ref(f: nat): nat { if f in ref then ref[f] else 0 }

    function Mem(f: nat): int { if f in mem then mem[f] else 0 }

    predicate HasTable(k: Key) { (k.0, k.1 / NPTEENTRY) in tables }

    /** The present entries that name frame f */
    function Users(f: nat): (u: set<Key>)
      ensures forall k :: k in u <==> Entry(k).Page? && Entry(k).frame == f
    {
      set k | k in entries && entries[k].Page? && entries[k].frame == f
    }

    predicate IsTable(f: nat) { exists t | t in tables :: tables[t] == f }
  }

  /**
    The books of one frame: it is free, a page table, allocated but not mapped (loose), or mapped; unless it is a page
    table, ref is the number of present entries that name it.
    */
  predicate Books(ref: nat, users: set<Key>, isTable: bool, isLoose: bool, isFree: bool, inRange: bool) {
    && (!isTable ==> ref == |users|)
    && (isTable ==> users == {} && !isLoose)
    && (isLoose ==> users == {})
    && (users != {} || isTable || isLoose ==> inRange)
    && (isFree <==> inRange && !isTable && !isLoose && users == {})
  }

  ghost predicate FrameOk(s: State, loose: set<nat>, f: nat) {
    Books(s.Ref(f), s.Users(f), s.IsTable(f), f in loose, f in s.free, f < s.nframes)
  }

  ghost predicate Counted(s: State, loose: set<nat>) {
    forall f: nat :: FrameOk(s, loose, f)
  }

  ghost predicate Valid(s: State, loose: set<nat>) {
    && Counted(s, loose)
    && (forall k | s.Entry(k) != Empty :: s.HasTable(k))
    && (forall a, b | a in s.tables && b in s.tables && s.tables[a] == s.tables[b] :: a == b)
  }

  /**
    A data frame's count is the number of present entries naming it, and it is on the free list exactly when that is
    zero.
    */
  lemma FreedExactlyAtZero(s: State, loose: set<nat>, f: nat)
    requires Valid(s, loose) && f < s.nframes && !s.IsTable(f) && f !in loose
    ensures s.Ref(f) == |s.Users(f)| && (f in s.free <==> s.Ref(f) == 0)
  {
    hide State.Users, State.IsTable;
    assert FrameOk(s, loose, f);
  }

  /** page_remove_pte */
  function RemovePte(s: State, k: Key): State {
    match s.Entry(k)
    case Page(f, _) =>
      var left := if s.Ref(f) > 0 then s.Ref(f) - 1 else 0;
      s.(entries := s.entries[k := Empty], ref := s.ref[f := left], free := if left == 0 then s.free + {f} else s.free)
    case _ => s
  }

  /** page_insert, once get_pte has found the entry */
  function InsertPage(s: State, k: Key, f: nat, perm: nat): State {
    var s1 := s.(ref := s.ref[f := s.Ref(f) + 1]);
    var s2 := match s1.Entry(k)
      case Page(g, _) => if g == f then s1.(ref := s1.ref[f := s1.Ref(f) - 1]) else RemovePte(s1, k)
      case _ => s1;
    s2.(entries := s2.entries[k := Page(f, perm)])
  }

  /** get_pte building a page table in frame f: the memset leaves no entry */
  function MakeTable(s: State, t: Key, f: nat): State {
    s.(tables := s.tables[t := f], ref := s.ref[f := 1],
       entries := map k | k in s.entries && (k.0, k.1 / NPTEENTRY) != t :: s.entries[k])
  }

  // --- how the entries name frames ---

  lemma UsersAfterSet(s: State, k: Key, e: Pte, f: nat)
    ensures s.(entries := s.entries[k := e]).Users(f) ==
            s.Users(f) - {k} + (if e.Page? && e.frame == f then {k} else {})
  {}

  lemma SameTables(s: State, r: State, f: nat)
    requires s.tables == r.tables
    ensures s.IsTable(f) <==> r.IsTable(f)
  {}

  /** Dropping one user from a set of users. */
  lemma UsersAfterRemove(s: State, k: Key, f: nat)
    ensures RemovePte(s, k).Users(f) == if s.Entry(k).Page? then s.Users(f) - {k} else s.Users(f)
  {
    UsersAfterSet(s, k, Empty, f);
    assert RemovePte(s, k).Users(f) == s.(entries := RemovePte(s, k).entries).Users(f);
  }

  lemma DropUser(ref: nat, users: set<Key>, isTable: bool, isLoose: bool, isFree: bool, inRange: bool, k: Key)
    requires Books(ref, users, isTable, isLoose, isFree, inRange) && k in users
    ensures ref >= 1 && Books(ref - 1, users - {k}, isTable, isLoose, isFree || ref == 1, inRange)
    ensures ref == 1 <==> users == {k}
  {
    assert users == (users - {k}) + {k};
    assert ref == 1 ==> |users - {k}| == 0;
  }

  lemma RemoveFrame(s: State, loose: set<nat>, k: Key, f: nat)
    requires FrameOk(s, loose, f)
    ensures FrameOk(RemovePte(s, k), loose, f)
    ensures f in RemovePte(s, k).free <==>
              f in s.free || (s.Entry(k).Page? && s.Entry(k).frame == f && s.Users(f) == {k})
  {
    hide State.Users, State.IsTable, Books;
    var r := RemovePte(s, k);
    UsersAfterRemove(s, k, f);
    SameTables(s, r, f);
    if s.Entry(k).Page? && s.Entry(k).frame == f {
      assert k in s.Users(f);
      DropUser(s.Ref(f), s.Users(f), s.IsTable(f), f in loose, f in s.free, f < s.nframes, k);
      assert r.Ref(f) == s.Ref(f) - 1;
    } else {
      assert s.Users(f) - {k} == s.Users(f);
      assert r.Ref(f) == s.Ref(f) && (f in r.free <==> f in s.free);
    }
  }

  /** A removed entry reads as Empty, its frame loses one user, and it is freed exactly when that was the last. */
  lemma RemoveValid(s: State, loose: set<nat>, k: Key)
    requires Valid(s, loose)
    ensures Valid(RemovePte(s, k), loose) && RemovePte(s, k).tables == s.tables && RemovePte(s, k).mem == s.mem
    ensures forall j :: RemovePte(s, k).Entry(j) == if j == k && s.Entry(j).Page? then Empty else s.Entry(j)
    ensures forall f: nat :: f in RemovePte(s, k).free <==>
              f in s.free || (s.Entry(k).Page? && s.Entry(k).frame == f && s.Users(f) == {k})
  {
    hide State.Users, State.IsTable, FrameOk;
    forall f: nat
      ensures FrameOk(RemovePte(s, k), loose, f)
      ensures f in RemovePte(s, k).free <==>
                f in s.free || (s.Entry(k).Page? && s.Entry(k).frame == f && s.Users(f) == {k})
    {
      assert FrameOk(s, loose, f);
      RemoveFrame(s, loose, k, f);
    }
    forall j ensures RemovePte(s, k).Entry(j) == if j == k && s.Entry(j).Page? then Empty else s.Entry(j) {}
    forall j | RemovePte(s, k).Entry(j) != Empty ensures RemovePte(s, k).HasTable(j) {
      assert s.HasTable(j);
    }
  }

  lemma UsersAfterInsert(s: State, k: Key, f: nat, perm: nat, h: nat)
    ensures InsertPage(s, k, f, perm).Users(h) == s.Users(h) - {k} + (if h == f then {k} else {})
    ensures InsertPage(s, k, f, perm).tables == s.tables && InsertPage(s, k, f, perm).nframes == s.nframes
  {
    UsersAfterSet(s, k, Page(f, perm), h);
    assert InsertPage(s, k, f, perm).Users(h) == s.(entries := s.entries[k := Page(f, perm)]).Users(h);
  }

  /** What page_insert does to the counter of frame h and to the free list. */
  lemma InsertRef(s: State, k: Key, f: nat, perm: nat, h: nat)
    requires s.Entry(k).Page? && s.Entry(k).frame == h ==> s.Ref(h) > 0
    ensures var r := InsertPage(s, k, f, perm);
            var shared := s.Entry(k).Page? && s.Entry(k).frame == h;
            && r.Ref(h) == s.Ref(h) + (if h == f then 1 else 0) - (if shared then 1 else 0)
            && (h in r.free <==> h in s.free || (shared && h != f && s.Ref(h) == 1))
  {}

  /** The books of a frame when entry k stops naming it and, if it is the new frame, starts naming it. */
  lemma Exchange(ref: nat, users: set<Key>, isTable: bool, isLoose: bool, isFree: bool, inRange: bool, k: Key,
                 isNew: bool)
    requires Books(ref, users, isTable, isLoose, isFree, inRange) && (isNew ==> isLoose || users != {})
    ensures k in users ==> ref > 0
    ensures var ref2 := ref + (if isNew then 1 else 0) - (if k in users then 1 else 0);
            var free2 := isFree || (k in users && !isNew && ref == 1);
            && ref2 >= 0
            && Books(ref2, users - {k} + (if isNew then {k} else {}), isTable, isLoose && !isNew, free2, inRange)
            && (free2 <==> isFree || (k in users && !isNew && users == {k}))
  {
    if k in users {
      DropUser(ref, users, isTable, isLoose, isFree, inRange, k);
      assert users - {k} + {k} == users && users - {k} + {} == users - {k};
    } else {
      assert users - {k} + {k} == users + {k} && users - {k} + {} == users;
    }
  }

  lemma InsertFrame(s: State, loose: set<nat>, k: Key, f: nat, perm: nat, h: nat)
    requires FrameOk(s, loose, h) && (f in loose || s.Users(f) != {})
    ensures FrameOk(InsertPage(s, k, f, perm), loose - {f}, h)
    ensures h in InsertPage(s, k, f, perm).free <==>
            h in s.free || (s.Entry(k).Page? && s.Entry(k).frame == h != f && s.Users(h) == {k})
  {
    hide State.Users, State.IsTable, InsertPage, State.Ref, State.Entry, Books;
    UsersAfterInsert(s, k, f, perm, h);
    SameTables(s, InsertPage(s, k, f, perm), h);
    Exchange(s.Ref(h), s.Users(h), s.IsTable(h), h in loose, h in s.free, h < s.nframes, k, h == f);
    InsertRef(s, k, f, perm, h);
  }

  /**
    The entry names the new frame, which gains this user; the frame it named before loses one and is freed if that was
    its last.
    */
  lemma InsertValid(s: State, loose: set<nat>, k: Key, f: nat, perm: nat)
    requires Valid(s, loose) && s.HasTable(k) && (f in loose || s.Users(f) != {})
    ensures var r := InsertPage(s, k, f, perm); Valid(r, loose - {f}) && r.tables == s.tables && r.mem == s.mem
    ensures forall j :: InsertPage(s, k, f, perm).Entry(j) == if j == k then Page(f, perm) else s.Entry(j)
    ensures forall h: nat :: h in InsertPage(s, k, f, perm).free <==>
              h in s.free || (s.Entry(k).Page? && s.Entry(k).frame == h != f && s.Users(h) == {k})
  {
    hide State.Users, State.IsTable, FrameOk;
    var r := InsertPage(s, k, f, perm);
    assert FrameOk(s, loose, f);
    forall h: nat
      ensures FrameOk(r, loose - {f}, h)
      ensures h in r.free <==> h in s.free || (s.Entry(k).Page? && s.Entry(k).frame == h != f && s.Users(h) == {k})
    {
      assert FrameOk(s, loose, h);
      InsertFrame(s, loose, k, f, perm, h);
    }
    forall j ensures r.Entry(j) == if j == k then Page(f, perm) else s.Entry(j) {}
    forall j | r.Entry(j) != Empty ensures r.HasTable(j) {
      assert j == k || s.HasTable(j);
    }
  }

  /** get_pte creating a table: no entry appears, and the frame becomes a page table. */
  lemma MakeTableValid(s: State, loose: set<nat>, t: Key, f: nat)
    requires Valid(s, loose) && t !in s.tables && f in loose
    ensures var r := MakeTable(s, t, f);
            Valid(r, loose - {f}) && r.mem == s.mem && r.tables == s.tables[t := f] && r.free == s.free
    ensures forall j :: MakeTable(s, t, f).Entry(j) == s.Entry(j)
  {
    hide State.Users, State.IsTable, FrameOk;
    var r := MakeTable(s, t, f);
    forall j ensures r.Entry(j) == s.Entry(j) {
      assert s.Entry(j) != Empty ==> s.HasTable(j);
    }
    forall j | r.Entry(j) != Empty ensures r.HasTable(j) {
      assert s.HasTable(j);
    }
    assert FrameOk(s, loose, f);
    NotATable(s, loose, f);
    forall h: nat ensures FrameOk(r, loose - {f}, h) {
      assert FrameOk(s, loose, h);
      MakeTableFrame(s, loose, t, f, h);
    }
  }

  lemma NotATable(s: State, loose: set<nat>, f: nat)
    requires FrameOk(s, loose, f) && f in loose
    ensures forall t | t in s.tables :: s.tables[t] != f
  {
    hide State.Users;
    forall t | t in s.tables ensures s.tables[t] != f {
      assert s.tables[t] == f ==> s.IsTable(f);
    }
  }

  lemma MakeTableFrame(s: State, loose: set<nat>, t: Key, f: nat, h: nat)
    requires FrameOk(s, loose, h) && f in loose && t !in s.tables
    requires forall j :: MakeTable(s, t, f).Entry(j) == s.Entry(j)
    ensures FrameOk(MakeTable(s, t, f), loose - {f}, h)
  {
    var r := MakeTable(s, t, f);
    assert r.Users(h) == s.Users(h);
    hide State.Users;
    assert r.IsTable(h) <==> s.IsTable(h) || h == f by {
      assert r.tables[t] == f;
      if s.IsTable(h) {
        var x :| x in s.tables && s.tables[x] == h;
        assert r.tables[x] == h;
      }
    }
  }

  /** exit_range giving back one page table: every entry in it is gone, whatever it held */
  function DropTable(s: State, t: Key): State
    requires t in s.tables
  {
    s.(tables := s.tables - {t}, ref := s.ref[s.tables[t] := 0], free := s.free + {s.tables[t]},
       entries := map k | k in s.entries && (k.0, k.1 / NPTEENTRY) != t :: s.entries[k])
  }

  predicate InTable(k: Key, t: Key) { (k.0, k.1 / NPTEENTRY) == t }

  lemma DropTableEntries(s: State, t: Key)
    requires t in s.tables
    ensures forall j :: DropTable(s, t).Entry(j) == if InTable(j, t) then Empty else s.Entry(j)
  {
    forall j ensures DropTable(s, t).Entry(j) == if InTable(j, t) then Empty else s.Entry(j) {}
  }

  lemma DropTableTables(s: State, t: Key, h: nat)
    requires t in s.tables && forall a, b | a in s.tables && b in s.tables && s.tables[a] == s.tables[b] :: a == b
    ensures DropTable(s, t).IsTable(h) <==> s.IsTable(h) && h != s.tables[t]
  {
    var r := DropTable(s, t);
    if s.IsTable(h) && h != s.tables[t] {
      var x :| x in s.tables && s.tables[x] == h;
      assert x in r.tables && r.tables[x] == h;
    }
  }

  /** The books stay right exactly when the table dropped held no present entry, which unmap_range sees to. */
  lemma DropTableIff(s: State, loose: set<nat>, t: Key)
    requires Valid(s, loose) && t in s.tables
    ensures Valid(DropTable(s, t), loose) <==> forall k | InTable(k, t) :: !s.Entry(k).Page?
  {
    hide State.Users, State.IsTable, FrameOk;
    DropTableEntries(s, t);
    var r := DropTable(s, t);
    if forall k | InTable(k, t) :: !s.Entry(k).Page? {
      forall h: nat ensures FrameOk(r, loose, h) {
        assert FrameOk(s, loose, h);
        DropTableFrame(s, loose, t, h);
      }
      forall j | r.Entry(j) != Empty ensures r.HasTable(j) {
        assert s.HasTable(j);
      }
      assert Valid(r, loose);
    } else {
      var k :| InTable(k, t) && s.Entry(k).Page?;
      assert FrameOk(s, loose, s.Entry(k).frame);
      LostUser(s, loose, t, k);
    }
  }

  /** One table, in frame 0, whose only entry maps frame 1 */
  function OnePage(): State {
    State(2, map[(0, 0) := 0], map[(0, 0) := Page(1, 7)], map[1 := 1], {}, map[])
  }

  /** Dropping that table leaves frame 1 with a count of one and nobody that maps it. */
  lemma DropTableLosesUser()
    ensures Valid(OnePage(), {}) && !Valid(DropTable(OnePage(), (0, 0)), {})
  {
    var s, k: Key := OnePage(), (0, 0);
    assert s.Users(1) == {k};
    forall f: nat ensures FrameOk(s, {}, f) {
      assert f != 1 ==> s.Users(f) == {};
      assert k in s.tables && s.tables[k] == 0;
    }
    assert InTable(k, k) && s.Entry(k).Page?;
    DropTableIff(s, {}, k);
  }

  lemma DropTableFrame(s: State, loose: set<nat>, t: Key, h: nat)
    requires FrameOk(s, loose, h) && t in s.tables
    requires forall a, b | a in s.tables && b in s.tables && s.tables[a] == s.tables[b] :: a == b
    requires forall j :: DropTable(s, t).Entry(j) == if InTable(j, t) then Empty else s.Entry(j)
    requires forall k | InTable(k, t) :: !s.Entry(k).Page?
    ensures FrameOk(DropTable(s, t), loose, h)
  {
    hide State.IsTable, InTable;
    var r := DropTable(s, t);
    assert r.Users(h) == s.Users(h);
    hide State.Users;
    DropTableTables(s, t, h);
    if h == s.tables[t] {
      assert s.IsTable(h) by { TableIsTable(s, t); }
    }
  }

  lemma TableIsTable(s: State, t: Key)
    requires t in s.tables
    ensures s.IsTable(s.tables[t])
  {}

  lemma LostUser(s: State, loose: set<nat>, t: Key, k: Key)
    requires t in s.tables && InTable(k, t) && s.Entry(k).Page? && FrameOk(s, loose, s.Entry(k).frame)
    requires forall a, b | a in s.tables && b in s.tables && s.tables[a] == s.tables[b] :: a == b
    requires forall j :: DropTable(s, t).Entry(j) == if InTable(j, t) then Empty else s.Entry(j)
    ensures !FrameOk(DropTable(s, t), loose, s.Entry(k).frame)
  {
    hide State.IsTable;
    var r, g := DropTable(s, t), s.Entry(k).frame;
    assert k in s.Users(g) && k !in r.Users(g);
    assert r.Users(g) < s.Users(g);
    SubsetSize(r.Users(g), s.Users(g));
    DropTableTables(s, t, g);
    TableIsTable(s, t);
    assert r.Ref(g) == s.Ref(g);
  }
}

/** The range operations of kern/mm/pmm.c. Addresses are page numbers; a range is [start, end) with start < end. */
module PageRanges {
  import opened Counting
  import opened PageTables

  /** s is s0 with exactly the present entries of [lo, hi) in directory dir removed. */
  ghost predicate Unmapped(s0: State, s: State, dir: nat, lo: nat, hi: nat) {
    && s.tables == s0.tables && s.mem == s0.mem
    && forall k: Key :: s.Entry(k) == if k.0 == dir && lo <= k.1 < hi && s0.Entry(k).Page? then Empty else s0.Entry(k)
  }

  /** The first page behind the page table of page p: ROUNDDOWN(start + PTSIZE, PTSIZE) */
  function NextTable(p: nat): (r: nat)
    ensures p < r && forall q: nat | p <= q < r :: q / NPTEENTRY == p / NPTEENTRY
  {
    (p / NPTEENTRY + 1) * NPTEENTRY
  }

  lemma SkipTable(s0: State, s: State, loose: set<nat>, dir: nat, lo: nat, p: nat, hi: nat)
    requires Valid(s, loose) && Unmapped(s0, s, dir, lo, p) && lo <= p <= hi <= NextTable(p) && !s.HasTable((dir, p))
    ensures Unmapped(s0, s, dir, lo, hi)
  {
    hide NextTable, Counted;
    forall k: Key
      ensures s.Entry(k) == if k.0 == dir && lo <= k.1 < hi && s0.Entry(k).Page? then Empty else s0.Entry(k)
    {
      if k.0 == dir && p <= k.1 < hi {
        assert !s.HasTable(k);
      }
    }
  }

  lemma UnmapNone(s: State, dir: nat, lo: nat)
    ensures Unmapped(s, s, dir, lo, lo)
  {}

  lemma UnmapOne(s0: State, s: State, loose: set<nat>, dir: nat, lo: nat, p: nat)
    requires Valid(s, loose) && Unmapped(s0, s, dir, lo, p) && lo <= p
    ensures Valid(RemovePte(s, (dir, p)), loose) && Unmapped(s0, RemovePte(s, (dir, p)), dir, lo, p + 1)
  {
    hide Counted, RemovePte, State.Entry;
    RemoveValid(s, loose, (dir, p));
  }

  /** s is s0 without the page tables of directory dir with an index in [lo, hi), and without their entries. */
  ghost predicate Exited(s0: State, s: State, dir: nat, lo: nat, hi: nat) {
    s.mem == s0.mem && ExitedTables(s0, s, dir, lo, hi) && ExitedEntries(s0, s, dir, lo, hi)
  }

  ghost predicate ExitedTables(s0: State, s: State, dir: nat, lo: nat, hi: nat) {
    && (forall t: Key :: t in s.tables <==> t in s0.tables && !(t.0 == dir && lo <= t.1 < hi))
    && (forall t: Key | t in s.tables :: s.tables[t] == s0.tables[t])
  }

  ghost predicate ExitedEntries(s0: State, s: State, dir: nat, lo: nat, hi: nat) {
    forall k: Key :: s.Entry(k) == if k.0 == dir && lo <= k.1 / NPTEENTRY < hi then Empty else s0.Entry(k)
  }

  /** Every entry that is not zero has a page table behind it. */
  ghost predicate Backed(s: State) { forall k: Key | s.Entry(k) != Empty :: s.HasTable(k) }

  /** The counts of frames that were no page tables are as they were. */
  ghost predicate RefsKept(s0: State, s: State) { forall f: nat | !s0.IsTable(f) :: s.Ref(f) == s0.Ref(f) }

  /** No present entry in these tables of the directory */
  ghost predicate NothingMapped(s: State, dir: nat, lo: nat, hi: nat) {
    forall k: Key | k.0 == dir && lo <= k.1 / NPTEENTRY < hi :: !s.Entry(k).Page?
  }

  /** If no dropped table held a present entry the books stay right. */
  lemma ExitValid(s0: State, s: State, loose: set<nat>, dir: nat, lo: nat, x: nat)
    requires Valid(s, loose) && Exited(s0, s, dir, lo, x) && lo <= x && NothingMapped(s0, dir, lo, x + 1)
    requires (dir, x) in s.tables
    ensures Valid(DropTable(s, (dir, x)), loose)
  {
    hide Counted, State.Entry, ExitedTables;
    forall k | InTable(k, (dir, x)) ensures !s.Entry(k).Page? {}
    DropTableIff(s, loose, (dir, x));
  }

  /** If one did, its frame has lost a user it is still counted for. */
  lemma ExitInvalid(s0: State, s: State, loose: set<nat>, dir: nat, lo: nat, hi: nat)
    requires Valid(s0, loose) && Exited(s0, s, dir, lo, hi) && RefsKept(s0, s) && !NothingMapped(s0, dir, lo, hi)
    ensures !Valid(s, loose)
  {
    var k: Key :| k.0 == dir && lo <= k.1 / NPTEENTRY < hi && s0.Entry(k).Page?;
    var g := s0.Entry(k).frame;
    assert k in s0.Users(g) && k !in s.Users(g);
    assert s.Users(g) <= s0.Users(g);
    assert FrameOk(s0, loose, g);
    hide State.Users;
    SubsetSmaller(s.Users(g), s0.Users(g), k);
    assert !s.IsTable(g);
    assert !FrameOk(s, loose, g);
  }

  lemma SubsetSmaller(a: set<Key>, b: set<Key>, k: Key)
    requires a <= b && k in b && k !in a
    ensures |a| < |b|
  {
    SubsetSize(a, b - {k});
  }

  lemma DropRefs(s0: State, s: State, t: Key)
    requires RefsKept(s0, s) && t in s.tables && t in s0.tables && s.tables[t] == s0.tables[t]
    ensures RefsKept(s0, DropTable(s, t))
  {
    TableIsTable(s0, t);
  }

  lemma ExitOne(s0: State, s: State, dir: nat, lo: nat, x: nat)
    requires Backed(s) && Exited(s0, s, dir, lo, x) && lo <= x
    ensures var s2 := if (dir, x) in s.tables then DropTable(s, (dir, x)) else s;
            Backed(s2) && Exited(s0, s2, dir, lo, x + 1)
  {
    hide State.Entry, ExitedTables;
    if (dir, x) in s.tables {
      DropTableExited(s0, s, dir, lo, x);
      DropTableEntries(s, (dir, x));
    } else {
      NoTableExited(s0, s, dir, lo, x);
      forall k: Key ensures s.Entry(k) == if k.0 == dir && lo <= k.1 / NPTEENTRY < x + 1 then Empty else s0.Entry(k) {
        if k.0 == dir && k.1 / NPTEENTRY == x {
          assert !s.HasTable(k);
        }
      }
    }
  }

  lemma DropTableExited(s0: State, s: State, dir: nat, lo: nat, x: nat)
    requires Exited(s0, s, dir, lo, x) && lo <= x && (dir, x) in s.tables
    ensures Exited(s0, DropTable(s, (dir, x)), dir, lo, x + 1)
  {
    hide ExitedTables, ExitedEntries;
    DropTableEntriesExited(s0, s, dir, lo, x);
    DropTableTablesExited(s0, s, dir, lo, x);
  }

  lemma DropTableEntriesExited(s0: State, s: State, dir: nat, lo: nat, x: nat)
    requires ExitedEntries(s0, s, dir, lo, x) && lo <= x && (dir, x) in s.tables
    ensures ExitedEntries(s0, DropTable(s, (dir, x)), dir, lo, x + 1)
  {
    hide State.Entry, DropTable;
    DropTableEntries(s, (dir, x));
    var r := DropTable(s, (dir, x));
    forall k: Key ensures r.Entry(k) == if k.0 == dir && lo <= k.1 / NPTEENTRY < x + 1 then Empty else s0.Entry(k) {
      assert r.Entry(k) == if InTable(k, (dir, x)) then Empty else s.Entry(k);
    }
  }

  lemma DropTableTablesExited(s0: State, s: State, dir: nat, lo: nat, x: nat)
    requires ExitedTables(s0, s, dir, lo, x) && lo <= x && (dir, x) in s.tables
    ensures ExitedTables(s0, DropTable(s, (dir, x)), dir, lo, x + 1)
  {
    var r := DropTable(s, (dir, x));
    assert r.tables == s.tables - {(dir, x)};
    hide DropTable;
    forall t: Key ensures t in r.tables <==> t in s0.tables && !(t.0 == dir && lo <= t.1 < x + 1) {
      assert t in r.tables <==> t in s.tables && t != (dir, x);
    }
  }

  lemma NoTableExited(s0: State, s: State, dir: nat, lo: nat, x: nat)
    requires ExitedTables(s0, s, dir, lo, x) && lo <= x && (dir, x) !in s.tables
    ensures ExitedTables(s0, s, dir, lo, x + 1)
  {
    forall t: Key ensures t in s.tables <==> t in s0.tables && !(t.0 == dir && lo <= t.1 < x + 1) {
      assert t.0 == dir && t.1 == x ==> t == (dir, x);
    }
  }

  lemma StartExit(s: State, loose: set<nat>, dir: nat, lo: nat)
    requires Valid(s, loose)
    ensures Exited(s, s, dir, lo, lo) && Backed(s) && RefsKept(s, s)
  {
    ExitNone(s, dir, lo);
  }

  lemma MappedSplit(s: State, dir: nat, lo: nat, x: nat)
    requires lo <= x && NothingMapped(s, dir, lo, x + 1)
    ensures NothingMapped(s, dir, lo, x)
  {}

  lemma TableThere(s0: State, s: State, dir: nat, lo: nat, x: nat)
    requires Exited(s0, s, dir, lo, x) && (dir, x) in s.tables
    ensures (dir, x) in s0.tables && s.tables[(dir, x)] == s0.tables[(dir, x)]
  {}

  lemma ExitNone(s: State, dir: nat, lo: nat)
    ensures Exited(s, s, dir, lo, lo)
  {}

  /** alloc_page handing out frame f */
  function Allocate(s: State, f: nat): State {
    s.(free := s.free - {f})
  }

  lemma AllocateValid(s: State, loose: set<nat>, f: nat)
    requires Valid(s, loose) && f in s.free
    ensures Valid(Allocate(s, f), loose + {f}) && s.Users(f) == {} && f !in loose
    ensures |Allocate(s, f).free| == |s.free| - 1
    ensures forall k: Key :: Allocate(s, f).Entry(k) == s.Entry(k)
  {
    hide State.Users, State.IsTable, FrameOk;
    var r := Allocate(s, f);
    FreeFacts(s, loose, f);
    forall h: nat ensures FrameOk(r, loose + {f}, h) {
      assert FrameOk(s, loose, h);
      AllocateFrame(s, loose, f, h);
    }
    forall k: Key ensures r.Entry(k) == s.Entry(k) {}
    forall k: Key | r.Entry(k) != Empty ensures r.HasTable(k) {
      assert s.HasTable(k);
    }
  }

  lemma FreeFacts(s: State, loose: set<nat>, f: nat)
    requires Counted(s, loose) && f in s.free
    ensures s.Users(f) == {} && f !in loose
  {
    hide State.Users, State.IsTable;
    assert FrameOk(s, loose, f);
  }

  lemma AllocateFrame(s: State, loose: set<nat>, f: nat, h: nat)
    requires FrameOk(s, loose, h) && f in s.free
    ensures FrameOk(Allocate(s, f), loose + {f}, h)
  {
    hide State.IsTable;
    var r := Allocate(s, f);
    assert r.Users(h) == s.Users(h);
    SameTables(s, r, h);
  }

  /** The page p of directory `to` is a private copy of the page p that directory `from` had in s0. */
  ghost predicate CopyOf(s0: State, s: State, to: nat, from: nat, p: nat) {
    var e, e0 := s.Entry((to, p)), s0.Entry((from, p));
    e.Page? && e0.Page? && e.perm == e0.perm && s.Users(e.frame) == {(to, p)} && s.Mem(e.frame) == s0.Mem(e0.frame)
  }

  /** Only page tables of directory `to` have been added. */
  ghost predicate Grown(s0: State, s: State, to: nat) {
    && (forall t: Key | t in s0.tables :: t in s.tables && s.tables[t] == s0.tables[t])
    && (forall t: Key | t in s.tables && t !in s0.tables :: t.0 == to)
  }

  /** The pages mapped by other directories than `to` hold what they held. */
  ghost predicate OthersKept(s0: State, s: State, to: nat) {
    forall k: Key | k.0 != to && s0.Entry(k).Page? ::
      s.Entry(k) == s0.Entry(k) && s.Mem(s0.Entry(k).frame) == s0.Mem(s0.Entry(k).frame)
  }

  /** Every page of [lo, hi) present in `from` has been copied to `to`, and no other entry has changed. */
  ghost predicate Copied(s0: State, s: State, to: nat, from: nat, lo: nat, hi: nat) {
    && (forall k: Key | !(k.0 == to && lo <= k.1 < hi && s0.Entry((from, k.1)).Page?) :: s.Entry(k) == s0.Entry(k))
    && (forall p: nat | lo <= p < hi && s0.Entry((from, p)).Page? :: CopyOf(s0, s, to, from, p))
    && OthersKept(s0, s, to) && Grown(s0, s, to)
  }

  lemma CopyNone(s: State, to: nat, from: nat, lo: nat)
    ensures Copied(s, s, to, from, lo, lo)
  {}

  lemma CopySkip(s0: State, s: State, to: nat, from: nat, lo: nat, p: nat, hi: nat)
    requires Copied(s0, s, to, from, lo, p) && lo <= p <= hi
    requires forall q: nat | p <= q < hi :: !s0.Entry((from, q)).Page?
    ensures Copied(s0, s, to, from, lo, hi)
  {
    hide CopyOf, OthersKept, Grown, State.Entry;
  }

  /**
    Adding a page table for directory `to`, or taking a frame from the free list, disturbs nothing that has been copied.
    */
  lemma CopiedFrame(s0: State, s: State, r: State, to: nat, from: nat, lo: nat, hi: nat)
    requires Copied(s0, s, to, from, lo, hi) && (forall k: Key :: r.Entry(k) == s.Entry(k)) && Grown(s, r, to)
    requires r.mem == s.mem
    ensures Copied(s0, r, to, from, lo, hi)
  {
    hide State.Entry;
    forall p: nat | lo <= p < hi && s0.Entry((from, p)).Page? ensures CopyOf(s0, r, to, from, p) {
      assert CopyOf(s0, s, to, from, p);
      assert r.Users(r.Entry((to, p)).frame) == s.Users(s.Entry((to, p)).frame);
    }
  }

  /** memcpy into a frame nobody uses, then page_insert */
  function CopyInto(s: State, to: nat, from: nat, p: nat, f: nat): State
    requires s.Entry((from, p)).Page?
  {
    var e := s.Entry((from, p));
    InsertPage(s.(mem := s.mem[f := s.Mem(e.frame)]), (to, p), f, e.perm)
  }

  lemma MemValid(s: State, loose: set<nat>, m: map<nat, int>)
    requires Valid(s, loose)
    ensures Valid(s.(mem := m), loose) && forall k: Key :: s.(mem := m).Entry(k) == s.Entry(k)
    ensures forall f: nat :: s.(mem := m).Users(f) == s.Users(f)
  {
    var r := s.(mem := m);
    forall f: nat ensures r.Users(f) == s.Users(f) && FrameOk(r, loose, f) {
      assert FrameOk(s, loose, f);
      assert r.Users(f) == s.Users(f);
      SameTables(s, r, f);
    }
    forall k: Key | r.Entry(k) != Empty ensures r.HasTable(k) {
      assert s.HasTable(k);
    }
  }

  /** What CopyInto does, entry by entry and frame by frame */
  lemma CopyIntoFacts(s: State, loose: set<nat>, to: nat, from: nat, p: nat, f: nat)
    requires Valid(s, loose) && f in loose && s.HasTable((to, p)) && s.Entry((from, p)).Page?
    ensures var r := CopyInto(s, to, from, p, f);
            Valid(r, loose - {f}) && r.tables == s.tables && s.free <= r.free
    ensures var r, e := CopyInto(s, to, from, p, f), s.Entry((from, p));
            && (forall k: Key :: r.Entry(k) == if k == (to, p) then Page(f, e.perm) else s.Entry(k))
            && (forall h: nat :: r.Mem(h) == if h == f then s.Mem(e.frame) else s.Mem(h))
    ensures s.Users(f) == {}
  {
    hide State.Users, FrameOk, State.IsTable, InsertPage;
    var e := s.Entry((from, p));
    MemValid(s, loose, s.mem[f := s.Mem(e.frame)]);
    InsertValid(s.(mem := s.mem[f := s.Mem(e.frame)]), loose, (to, p), f, e.perm);
    LooseFacts(s, loose, f);
  }

  lemma LooseFacts(s: State, loose: set<nat>, f: nat)
    requires Counted(s, loose) && f in loose
    ensures s.Users(f) == {}
  {
    hide State.Users, State.IsTable;
    assert FrameOk(s, loose, f);
  }

  lemma CopyOne(s0: State, s: State, loose: set<nat>, to: nat, from: nat, lo: nat, p: nat, f: nat)
    requires Valid(s, loose) && f in loose && s.HasTable((to, p)) && s.Entry((from, p)).Page? && to != from && lo <= p
    requires Copied(s0, s, to, from, lo, p)
    ensures Copied(s0, CopyInto(s, to, from, p, f), to, from, lo, p + 1)
  {
    hide Counted, CopyInto, State.Entry, State.Mem, State.Users, Grown, CopyOf;
    var r := CopyInto(s, to, from, p, f);
    CopyIntoFacts(s, loose, to, from, p, f);
    forall k: Key | s.Entry(k).Page? ensures s.Entry(k).frame != f {
      assert k !in s.Users(f);
    }
    assert OthersKept(s0, r, to);
    forall q: nat | lo <= q < p + 1 && s0.Entry((from, q)).Page? ensures CopyOf(s0, r, to, from, q) {
      if q < p {
        assert CopyOf(s0, s, to, from, q);
        CopyStays(s0, s, r, to, from, p, f, q);
      } else {
        CopyMade(s0, s, r, to, from, p, f);
      }
    }
    assert Grown(s0, r, to) by { GrownSame(s0, s, r, to); }
  }

  lemma CopyStays(s0: State, s: State, r: State, to: nat, from: nat, p: nat, f: nat, q: nat)
    requires CopyOf(s0, s, to, from, q) && q != p && s.Users(f) == {}
    requires forall k: Key | k != (to, p) :: r.Entry(k) == s.Entry(k)
    requires r.Entry((to, p)).Page? && r.Entry((to, p)).frame == f && forall h: nat | h != f :: r.Mem(h) == s.Mem(h)
    ensures CopyOf(s0, r, to, from, q)
  {
    hide State.Entry, State.Mem, State.Users;
    var g := s.Entry((to, q)).frame;
    assert (to, q) !in s.Users(f);
    assert (to, p) !in s.Users(g);
    assert r.Users(g) == s.Users(g);
  }

  lemma CopyMade(s0: State, s: State, r: State, to: nat, from: nat, p: nat, f: nat)
    requires s.Entry((from, p)).Page? && s.Entry((from, p)) == s0.Entry((from, p)) && s.Users(f) == {}
    requires s.Mem(s.Entry((from, p)).frame) == s0.Mem(s0.Entry((from, p)).frame)
    requires forall k: Key :: r.Entry(k) == if k == (to, p) then Page(f, s.Entry((from, p)).perm) else s.Entry(k)
    requires r.Mem(f) == s.Mem(s.Entry((from, p)).frame)
    ensures CopyOf(s0, r, to, from, p)
  {
    hide State.Entry, State.Mem, State.Users;
    forall k: Key ensures k in r.Users(f) <==> k == (to, p) {
      assert k !in s.Users(f);
    }
    assert r.Users(f) == {(to, p)};
  }

  lemma GrownSame(s0: State, s: State, r: State, to: nat)
    requires Grown(s0, s, to) && r.tables == s.tables
    ensures Grown(s0, r, to)
  {}

  lemma SameGrown(s: State, r: State, to: nat)
    requires r.tables == s.tables
    ensures Grown(s, r, to)
  {}

  /** copy_range reads the entries the source directory had from the start. */
  lemma SameFrom(s0: State, s: State, to: nat, from: nat, lo: nat, p: nat)
    requires Copied(s0, s, to, from, lo, p) && to != from
    ensures forall q: nat :: s.Entry((from, q)) == s0.Entry((from, q))
  {
    hide CopyOf, OthersKept, Grown, State.Entry;
  }

  lemma NothingThere(s: State, loose: set<nat>, dir: nat, p: nat)
    requires Valid(s, loose) && !s.HasTable((dir, p))
    ensures forall q: nat | p <= q < NextTable(p) :: !s.Entry((dir, q)).Page?
  {
    hide Counted, NextTable;
    forall q: nat | p <= q < NextTable(p) ensures !s.Entry((dir, q)).Page? {
      assert !s.HasTable((dir, q));
    }
  }

  class Spaces {
    var s: State
    ghost var loose: set<nat>

    ghost predicate Good()
      reads this
    {
      Valid(s, loose)
    }

    /** Before any mapping every frame is free. */
    constructor (nframes: nat)
      ensures Good() && loose == {} && s == State(nframes, map[], map[], map[], Below(nframes), map[])
    {
      s := State(nframes, map[], map[], map[], Below(nframes), map[]);
      loose := {};
      new;
      forall f: nat ensures FrameOk(s, loose, f) {
        assert s.Users(f) == {};
      }
    }

    /** page_remove: the entry is cleared if it is present */
    method Remove(k: Key)
      requires Good()
      modifies this
      ensures Good() && loose == old(loose) && s.tables == old(s).tables && s.mem == old(s).mem
      ensures forall j: Key :: s.Entry(j) == if j == k && old(s).Entry(j).Page? then Empty else old(s).Entry(j)
    {
      hide Valid, State.Entry, RemovePte;
      RemoveValid(s, loose, k);
      if s.HasTable(k) {
        s := RemovePte(s, k);
      } else {
        NothingThere(s, loose, k.0, k.1);
      }
    }

    /** unmap_range */
    method UnmapRange(dir: nat, start: nat, end: nat)
      requires Good() && start < end
      modifies this
      ensures Good() && loose == old(loose) && Unmapped(old(s), s, dir, start, end)
    {
      hide Valid, Unmapped;
      ghost var s0 := s;
      var p := start;
      UnmapNone(s0, dir, start);
      while p < end
        invariant start <= p && Good() && loose == old(loose) && Unmapped(s0, s, dir, start, if p < end then p else end)
      {
        if !s.HasTable((dir, p)) {
          SkipTable(s0, s, loose, dir, start, p, if NextTable(p) < end then NextTable(p) else end);
          p := NextTable(p);
        } else {
          UnmapOne(s0, s, loose, dir, start, p);
          if s.Entry((dir, p)) != Empty {
            s := RemovePte(s, (dir, p));
          }
          p := p + 1;
        }
      }
    }

    /**
      exit_range: all page tables of the range go, and the books stay right exactly when none of them held a present
      entry
      */
    method ExitRange(dir: nat, start: nat, end: nat)
      requires Good() && start < end
      modifies this`s
      ensures Exited(old(s), s, dir, start / NPTEENTRY, (end + NPTEENTRY - 1) / NPTEENTRY)
      ensures Good() <==> NothingMapped(old(s), dir, start / NPTEENTRY, (end + NPTEENTRY - 1) / NPTEENTRY)
    {
      hide Counted, Exited, DropTable, RefsKept, Backed, NothingMapped, State.HasTable;
      ghost var s0 := s;
      ghost var lo := start / NPTEENTRY;
      var x := start / NPTEENTRY;
      StartExit(s0, loose, dir, x);
      while x * NPTEENTRY < end
        invariant lo <= x <= (end + NPTEENTRY - 1) / NPTEENTRY && Exited(s0, s, dir, lo, x) && Backed(s)
        invariant RefsKept(s0, s)
        invariant NothingMapped(s0, dir, lo, x) ==> Good()
      {
        ExitOne(s0, s, dir, lo, x);
        if NothingMapped(s0, dir, lo, x + 1) {
          MappedSplit(s0, dir, lo, x);
        }
        if (dir, x) in s.tables {
          TableThere(s0, s, dir, lo, x);
          DropRefs(s0, s, (dir, x));
          if NothingMapped(s0, dir, lo, x + 1) {
            ExitValid(s0, s, loose, dir, lo, x);
          }
          s := DropTable(s, (dir, x));
        }
        x := x + 1;
      }
      if !NothingMapped(s0, dir, lo, x) {
        ExitInvalid(s0, s, loose, dir, lo, x);
      }
    }

    /** alloc_page without swap; with it, the source swaps pages out until there is a frame */
    method AllocPage() returns (page: Option<nat>)
      requires Good()
      modifies this
      ensures Good() && (page.None? <==> old(s).free == {})
      ensures page.None? ==> s == old(s) && loose == old(loose)
      ensures page.Some? ==>
                page.value in old(s).free && s == Allocate(old(s), page.value) && loose == old(loose) + {page.value}
    {
      if s.free == {} {
        return None;
      }
      hide Valid;
      var f :| f in s.free;
      AllocateValid(s, loose, f);
      s, loose := Allocate(s, f), loose + {f};
      page := Some(f);
    }

    /**
      get_pte with create set, for a page whose table may be missing; false when no frame is left, which the source
      overlooks
      */
    method MakePte(k: Key) returns (ok: bool)
      requires Good()
      modifies this
      ensures Good() && loose == old(loose) && (ok <==> old(s).HasTable(k) || old(s).free != {})
      ensures ok ==> s.HasTable(k) && s.mem == old(s).mem && Grown(old(s), s, k.0) && |s.free| >= |old(s).free| - 1
      ensures ok ==> forall j: Key :: s.Entry(j) == old(s).Entry(j)
    {
      hide Valid, State.Entry;
      if s.HasTable(k) {
        return true;
      }
      var page := AllocPage();
      if page.None? {
        return false;
      }
      AllocateValid(old(s), old(loose), page.value);
      MakeTableValid(s, loose, (k.0, k.1 / NPTEENTRY), page.value);
      s, loose := MakeTable(s, (k.0, k.1 / NPTEENTRY), page.value), loose - {page.value};
      ok := true;
    }

    /**
      page_insert of a frame that is allocated but not mapped, or mapped already; false when get_pte finds no frame for
      a table
      */
    method Insert(k: Key, f: nat, perm: nat) returns (ok: bool)
      requires Good() && (f in loose || s.Users(f) != {})
      modifies this
      ensures ok <==> old(s).HasTable(k) || old(s).free != {}
      ensures ok ==> Good() && loose == old(loose) - {f} && s.mem == old(s).mem && Grown(old(s), s, k.0)
      ensures ok ==> forall j: Key :: s.Entry(j) == if j == k then Page(f, perm) else old(s).Entry(j)
    {
      hide Valid, State.Entry, State.Users, InsertPage;
      ok := MakePte(k);
      if ok {
        assert s.Users(f) == old(s).Users(f);
        InsertValid(s, loose, k, f, perm);
        s, loose := InsertPage(s, k, f, perm), loose - {f};
      }
    }

    /** One round of copy_range on a page present in `from`; false when the frames run out */
    method CopyPage(to: nat, from: nat, p: nat, ghost s0: State, ghost lo: nat) returns (ok: bool)
      requires Good() && to != from && s.Entry((from, p)).Page? && lo <= p && Copied(s0, s, to, from, lo, p)
      modifies this
      ensures |old(s).free| >= 2 ==> ok
      ensures ok ==>
                Good() && loose == old(loose) && Copied(s0, s, to, from, lo, p + 1) && |s.free| >= |old(s).free| - 2
    {
      hide Valid, State.Entry, State.Users, CopyInto, Copied, Grown;
      ok := MakePte((to, p));
      if !ok {
        return;
      }
      CopiedFrame(s0, old(s), s, to, from, lo, p);
      ghost var s1, loose1 := s, loose;
      var page := AllocPage();
      if page.None? {
        return false;
      }
      AllocateValid(s1, loose1, page.value);
      SameGrown(s1, s, to);
      CopiedFrame(s0, s1, s, to, from, lo, p);
      CopyIntoFacts(s, loose, to, from, p, page.value);
      CopyOne(s0, s, loose, to, from, lo, p, page.value);
      SubsetSize(s.free, CopyInto(s, to, from, p, page.value).free);
      s, loose := CopyInto(s, to, from, p, page.value), loose - {page.value};
    }

    /** copy_range; false when the frames run out, which cannot happen when there are two for each page of the range */
    method CopyRange(to: nat, from: nat, start: nat, end: nat) returns (ok: bool)
      requires Good() && to != from && start < end
      modifies this
      ensures |old(s).free| >= 2 * (end - start) ==> ok
      ensures ok ==> Good() && loose == old(loose) && Copied(old(s), s, to, from, start, end)
    {
      hide Valid, State.Entry, Copied, Unmapped;
      ghost var s0 := s;
      var p := start;
      CopyNone(s0, to, from, start);
      while p < end
        invariant start <= p && Good() && loose == old(loose)
        invariant Copied(s0, s, to, from, start, if p < end then p else end)
        invariant |s.free| + 2 * (p - start) >= |s0.free|
      {
        SameFrom(s0, s, to, from, start, p);
        if !s.HasTable((from, p)) {
          ghost var hi := if NextTable(p) < end then NextTable(p) else end;
          NothingThere(s, loose, from, p);
          CopySkip(s0, s, to, from, start, p, hi);
          p := NextTable(p);
        } else {
          if s.Entry((from, p)).Page? {
            ok := CopyPage(to, from, p, s0, start);
            if !ok {
              return;
            }
          } else {
            CopySkip(s0, s, to, from, start, p, p + 1);
          }
          p := p + 1;
        }
      }
      ok := true;
    }
  }
}
