/** tools/mksfs.c building an image, and the kernel mounting it (kern/fs/sfs/sfs_fs.c, kern/fs/sfs/sfs_inode.c). */
module MksfsModel {
  import opened Counting
  import opened Bits
  import opened DiskBlocks
  import opened SfsModel
  import opened Sfs
  import opened SfsIo

  /** What each block of a file holds */
  function FileData(s: Fs, ino: nat): (f: seq<Raw>)
    requires ino in s.inodes
    ensures |f| == s.inodes[ino].blocks && forall i | 0 <= i < |f| :: f[i] == s.Block(FileBlocks(s, ino)[i])
  {
    seq(s.inodes[ino].blocks, i requires 0 <= i < s.inodes[ino].blocks => s.Block(FileBlocks(s, ino)[i]))
  }

  /** A file is one block longer, that block holds raw, and every other file is as it was. */
  ghost predicate Grew(s: Fs, r: Fs, ino: nat, b: nat, raw: Raw) {
    && ino in s.inodes && r.inodes.Keys == s.inodes.Keys
    && FileBlocks(r, ino) == FileBlocks(s, ino) + [b] && FileData(r, ino) == FileData(s, ino) + [raw]
    && forall j | j in s.inodes && j != ino ::
         FileBlocks(r, j) == FileBlocks(s, j) && FileData(r, j) == FileData(s, j) && r.inodes[j] == s.inodes[j]
  }

  lemma SameFilesData(s: Fs, r: Fs)
    requires SameFiles(s, r)
    ensures forall j | j in s.inodes ::
              j in r.inodes && FileBlocks(r, j) == FileBlocks(s, j) && FileData(r, j) == FileData(s, j)
  {
    forall j | j in s.inodes ensures FileData(r, j) == FileData(s, j) {
      assert FileBlocks(r, j) == FileBlocks(s, j) && |FileBlocks(r, j)| == r.inodes[j].blocks;
    }
  }

  // --- a block that is taken, filled, and then given to a file ---

  /** Block b leaves the freemap and is written; it belongs to no file yet. */
  function Held(s: Fs, b: nat, raw: Raw): Fs
    requires b < |s.free| && s.unused > 0
  {
    s.(free := s.free[b := false], unused := s.unused - 1, disk := s.disk[b := raw])
  }

  lemma HeldAt(s: Fs, reserved: set<nat>, b: nat, raw: Raw, slot: Slot)
    requires Owned(s, reserved) && b < |s.free| && s.free[b] && s.unused > 0
    ensures At(Held(s, b, raw), slot) == At(s, slot)
    decreases slot.Deep?, InBlock(slot)
  {
    hide WordAt, IsOwned;
    if InBlock(slot) {
      HeldAt(s, reserved, b, raw, Holder(slot));
      InBlockAt(s, slot);
      InBlockAt(Held(s, b, raw), slot);
      OwnedNotFree(s, reserved, Holder(slot));
      hide At;
    } else {
      hide Word;
    }
  }

  lemma HeldFacts(s: Fs, reserved: set<nat>, b: nat, raw: Raw)
    requires Valid(s, reserved) && b < |s.free| && s.free[b]
    ensures s.unused > 0 && b !in reserved
    ensures var r := Held(s, b, raw);
            Valid(r, reserved + {b}) && SameFiles(s, r) && r.Block(b) == raw && forall o :: At(r, o) == At(s, o)
  {
    hide At, CountTrue, FileBlocks;
    CountZero(s.free);
    CountUpdate(s.free, b, false);
    var r := Held(s, b, raw);
    forall o ensures At(r, o) == At(s, o) {
      HeldAt(s, reserved, b, raw, o);
    }
    WithFileOwned(s, r, reserved, b);
    assert !IsOwned(s, b);
    hide IsOwned;
    forall j | j in s.inodes ensures SameBytes(s, r) {
      KeptBytes(s, reserved, r, Indirect(j), b);
    }
    SameFilesFacts(s, r);
    forall j | j in r.inodes ensures ShapeOk(r, j) && Packed(r, j) {
      assert ShapeOk(s, j) && Packed(s, j);
    }
  }

  /** The block is recorded at the end of a file. */
  function Adopt(s: Fs, ino: nat, b: nat): Fs
    requires ino in s.inodes && Placed(s, FileSlot(ino, s.inodes[ino].blocks)) && b < WORD_LIMIT
  {
    SetBlocks(Put(s, FileSlot(ino, s.inodes[ino].blocks), b), ino, s.inodes[ino].blocks + 1)
  }

  lemma AdoptFacts(s: Fs, reserved: set<nat>, ino: nat, b: nat)
    requires Valid(s, reserved + {b}) && 0 in reserved && b !in reserved && ino in s.inodes
    requires s.inodes[ino].blocks < MAXFILE && Placed(s, FileSlot(ino, s.inodes[ino].blocks))
    ensures b < WORD_LIMIT && Valid(Adopt(s, ino, b), reserved)
    ensures Grew(s, Adopt(s, ino, b), ino, b, s.Block(b))
  {
    hide At, CountTrue, Put, ShapeOk, FileBlocks, FileData, Grew;
    var n := s.inodes[ino].blocks;
    var slot := FileSlot(ino, n);
    FileSlotFacts(ino, n, 0, 0);
    assert b in reserved + {b} && Packed(s, ino);
    var p := Put(s, slot, b);
    forall o ensures At(p, o) == if o == slot then b else At(s, o) {
      PutAt(s, slot, b, o);
    }
    PutShapes(s, slot, b);
    AdoptOwned(s, p, reserved, slot, b);
    SetBlocksFacts(p, reserved, ino, n + 1);
    var r := Adopt(s, ino, b);
    KeptBytes(s, reserved + {b}, r, slot, b);
    hide IsOwned, Owned;
    forall j | j in r.inodes ensures Packed(r, j) {
      AppendPacked(s, r, ino, b, j);
    }
    AdoptInodes(s, slot, b);
    AdoptGrew(s, r, ino, b);
  }

  /** A block that was reserved is now in a slot that was empty. */
  lemma AdoptOwned(s: Fs, r: Fs, reserved: set<nat>, slot: Slot, b: nat)
    requires Owned(s, reserved + {b}) && At(s, slot) == 0 && b !in reserved && 0 in reserved && r.free == s.free
    requires forall o :: At(r, o) == if o == slot then b else At(s, o)
    ensures Owned(r, reserved) && b != 0 && !IsOwned(s, b) && b < |s.free| <= WORD_LIMIT
    ensures InBlock(slot) ==> At(s, Holder(slot)) != b
  {
    hide At;
    assert b in reserved + {b};
    forall o ensures At(s, o) != b {
      assert At(s, o) != 0 ==> At(s, o) !in reserved + {b};
    }
    forall x: nat | x < |r.free| ensures !r.free[x] <==> x in reserved || IsOwned(r, x) {
      if IsOwned(s, x) {
        var o :| At(s, o) == x && x != 0;
        assert At(r, o) == x;
      }
      if x == b {
        assert At(r, slot) == b;
      }
      if IsOwned(r, x) && x != b {
        var o :| At(r, o) == x && x != 0;
        assert At(s, o) == x;
      }
    }
  }

  lemma AdoptInodes(s: Fs, slot: Slot, b: nat)
    requires Placed(s, slot) && b < WORD_LIMIT
    ensures forall j | j in s.inodes && j != slot.ino :: Put(s, slot, b).inodes[j] == s.inodes[j]
  {
    hide At, SetWord;
  }

  lemma AdoptGrew(s: Fs, r: Fs, ino: nat, b: nat)
    requires ino in s.inodes && r.inodes.Keys == s.inodes.Keys && SameBytes(s, r) && r.Block(b) == s.Block(b)
    requires forall o :: At(r, o) == if o == FileSlot(ino, s.inodes[ino].blocks) then b else At(s, o)
    requires r.inodes[ino].blocks == s.inodes[ino].blocks + 1
    requires forall j | j in s.inodes && j != ino :: r.inodes[j] == s.inodes[j]
    ensures Grew(s, r, ino, b, s.Block(b))
  {
    hide At, SameBytes;
    forall j | j in s.inodes ensures FileBlocks(r, j) == FileBlocks(s, j) + (if j == ino then [b] else []) {
      forall i: nat | i < s.inodes[j].blocks ensures FileBlocks(r, j)[i] == FileBlocks(s, j)[i] {
        FileSlotFacts(ino, s.inodes[ino].blocks, i, j);
      }
    }
    forall j | j in s.inodes ensures FileData(r, j) == FileData(s, j) + (if j == ino then [s.Block(b)] else []) {
      AdoptData(s, r, j, if j == ino then [b] else []);
    }
  }

  lemma AdoptData(s: Fs, r: Fs, j: nat, more: seq<nat>)
    requires j in s.inodes && j in r.inodes && SameBytes(s, r)
    requires FileBlocks(r, j) == FileBlocks(s, j) + more && |more| <= 1
    ensures FileData(r, j) == FileData(s, j) + (if more == [] then [] else [r.Block(more[0])])
  {
    hide At;
    assert |FileBlocks(r, j)| == r.inodes[j].blocks && |FileBlocks(s, j)| == s.inodes[j].blocks;
    forall i: nat | i < s.inodes[j].blocks ensures FileData(r, j)[i] == FileData(s, j)[i] {
      assert r.Block(FileBlocks(s, j)[i]) == s.Block(FileBlocks(s, j)[i]);
    }
  }

  /** A block for the inode of a new, empty file leaves the freemap and belongs to no file. */
  function WithFile(s: Fs, b: nat): Fs
    requires b < |s.free| && s.unused > 0
  {
    s.(free := s.free[b := false], unused := s.unused - 1, inodes := s.inodes[b := Inode(0, 0, Zeros(NDIRECT), 0, 0)])
  }

  lemma WithFileFacts(s: Fs, reserved: set<nat>, b: nat)
    requires Valid(s, reserved) && b < |s.free| && s.free[b] && b !in s.inodes
    ensures s.unused > 0
    ensures var r := WithFile(s, b);
            && Valid(r, reserved + {b}) && r.inodes.Keys == s.inodes.Keys + {b} && FileBlocks(r, b) == []
            && FileData(r, b) == []
            && (forall j | j in s.inodes :: FileBlocks(r, j) == FileBlocks(s, j) && FileData(r, j) == FileData(s, j))
  {
    CountUpdate(s.free, b, false);
    var r := WithFile(s, b);
    forall o ensures At(r, o) == At(s, o) {}
    hide At;
    WithFileOwned(s, r, reserved, b);
    forall j | j in s.inodes ensures ShapeOk(r, j) && Packed(r, j) && FileBlocks(r, j) == FileBlocks(s, j) {
      assert ShapeOk(s, j) && Packed(s, j);
    }
    EmptyPacked(r, b);
  }

  lemma EmptyPacked(r: Fs, b: nat)
    requires b in r.inodes && r.inodes[b] == Inode(0, 0, Zeros(NDIRECT), 0, 0)
    ensures ShapeOk(r, b) && Packed(r, b)
  {}

  lemma WithFileOwned(s: Fs, r: Fs, reserved: set<nat>, b: nat)
    requires Owned(s, reserved) && b < |s.free| && s.free[b] && r.free == s.free[b := false]
    requires forall o :: At(r, o) == At(s, o)
    ensures Owned(r, reserved + {b})
  {
    hide At;
    forall x: nat ensures IsOwned(r, x) <==> IsOwned(s, x) {
      if IsOwned(s, x) {
        var o :| At(s, o) == x && x != 0;
        assert At(r, o) == x;
      }
      if IsOwned(r, x) {
        var o :| At(r, o) == x && x != 0;
        assert At(s, o) == x;
      }
    }
    forall o ensures At(s, o) != b {
      OwnedNotFree(s, reserved, o);
    }
  }

  // --- the image under construction ---

  const BLKBITS: nat := 32768
  const BLKN_ROOT: nat := 1
  const BLKN_FREEMAP: nat := 2
  const MAX_NBLKS: nat := 524288

  /** Blocks the freemap of an image of that many blocks takes */
  function FreemapBlocks(ninos: nat): nat { (ninos + BLKBITS - 1) / BLKBITS }

  /** The freemap of an image whose blocks from next on have never been handed out */
  function FreemapOf(ninos: nat, next: nat): (f: seq<bool>)
    ensures |f| == FreemapBlocks(ninos) * BLKBITS >= ninos && forall k | 0 <= k < |f| :: f[k] <==> next <= k < ninos
  {
    seq(FreemapBlocks(ninos) * BLKBITS, k => next <= k < ninos)
  }

  /** disk: the blocks written to the image so far; cache: the index blocks still in memory */
  datatype Build = Build(ninos: nat, next: nat, inodes: map<nat, Inode>, disk: map<nat, Raw>, cache: map<nat, Raw>)
  {
    /** The file system the kernel would find if the image were closed now */
    function View(): Fs
      requires next <= ninos
    {
      Fs(FreemapOf(ninos, next), ninos - next, inodes, disk + cache)
    }
  }

  /** The view is a proper file system, and every index block is in the cache. */
  ghost predicate Good(s: Build, reserved: set<nat>) {
    && s.next <= s.ninos <= MAX_NBLKS && Valid(s.View(), reserved)
    && (forall e | e in s.cache :: e < s.next) && (forall j | j in s.inodes :: j < s.next)
    && (forall h | IsIndex(h) && At(s.View(), h) != 0 :: At(s.View(), h) in s.cache)
  }

  /** create_sfs: everything below `next`, and every number past the end of the image, is in use; the root is empty */
  function NewBuild(ninos: nat): Build {
    Build(ninos, BLKN_FREEMAP + FreemapBlocks(ninos), map[BLKN_ROOT := Inode(0, 0, Zeros(NDIRECT), 0, 0)], map[], map[])
  }

  function InUse(s: Build): set<nat> {
    set k | k in Below(FreemapBlocks(s.ninos) * BLKBITS) && !(s.next <= k < s.ninos)
  }

  lemma NewBuildGood(ninos: nat)
    requires BLKN_FREEMAP + FreemapBlocks(ninos) < ninos <= MAX_NBLKS
    ensures Good(NewBuild(ninos), InUse(NewBuild(ninos))) && FileBlocks(NewBuild(ninos).View(), BLKN_ROOT) == []
  {
    hide Below, FreemapOf, CountTrue;
    var s := NewBuild(ninos);
    var v := s.View();
    CountRange(v.free, s.next, ninos);
    forall o ensures At(v, o) == 0 {}
    assert forall b :: !IsOwned(v, b);
    EmptyPacked(v, BLKN_ROOT);
    hide At;
  }

  /** alloc_cache_inode: the next block becomes the inode of a new file */
  function FileAdded(s: Build): Build {
    s.(next := s.next + 1, inodes := s.inodes[s.next := Inode(0, 0, Zeros(NDIRECT), 0, 0)])
  }

  lemma FileAddedGood(s: Build, reserved: set<nat>)
    requires Good(s, reserved) && s.next < s.ninos
    ensures var v, r := s.View(), FileAdded(s);
            && Good(r, reserved + {s.next}) && s.next !in s.inodes && r.inodes.Keys == s.inodes.Keys + {s.next}
            && FileBlocks(r.View(), s.next) == []
            && forall j | j in s.inodes ::
                 FileBlocks(r.View(), j) == FileBlocks(v, j) && FileData(r.View(), j) == FileData(v, j)
  {
    hide Valid, FileBlocks, FileData, FreemapOf, WithFile;
    var v, r := s.View(), FileAdded(s);
    WithFileFacts(v, reserved, s.next);
    ViewWithFile(s);
  }

  lemma ViewWithFile(s: Build)
    requires s.next < s.ninos
    ensures s.next < |s.View().free| && FileAdded(s).View() == WithFile(s.View(), s.next)
  {
    assert FreemapOf(s.ninos, s.next + 1) == FreemapOf(s.ninos, s.next)[s.next := false];
  }

  /** write_block pads with zeros */
  function Padded(bytes: seq<Byte>): (r: Raw)
    requires |bytes| <= BLKSIZE
    ensures r[..|bytes|] == bytes && forall i | |bytes| <= i < BLKSIZE :: r[i] == 0
  {
    bytes + ZeroBytes()[|bytes|..]
  }

  /** sfs_alloc_ino and write_block: the next block, with its contents */
  function Allocated(s: Build, raw: Raw): Build { s.(next := s.next + 1, disk := s.disk[s.next := raw]) }

  /** A place can be written: in the inode, or in an index block that is in the cache. */
  predicate CanNote(s: Build, slot: Slot) {
    && s.next <= s.ninos && Placed(s.View(), slot) && (InBlock(slot) ==> At(s.View(), Holder(slot)) in s.cache)
    && (slot.Deep? ==> At(s.View(), Double(slot.ino)) in s.cache)
  }

  /** Recording a block number in the inode or in a cached index block */
  function Noted(s: Build, slot: Slot, b: nat): Build
    requires CanNote(s, slot) && b < WORD_LIMIT
  {
    var node := s.inodes[slot.ino];
    match slot
    case Direct(ino, i) => s.(inodes := s.inodes[ino := node.(direct := node.direct[i := b])])
    case Indirect(ino) => s.(inodes := s.inodes[ino := node.(indirect := b)])
    case Double(ino) => s.(inodes := s.inodes[ino := node.(double := b)])
    case _ =>
      var home := At(s.View(), Holder(slot));
      s.(cache := s.cache[home := SetWord(s.cache[home], Offset(slot), b)])
  }

  lemma ViewNoted(s: Build, slot: Slot, b: nat)
    requires CanNote(s, slot) && b < WORD_LIMIT
    ensures Noted(s, slot, b).View() == Put(s.View(), slot, b)
    ensures Noted(s, slot, b).cache.Keys == s.cache.Keys && Noted(s, slot, b).inodes.Keys == s.inodes.Keys
  {
    hide SetWord, FreemapOf, At;
  }

  /** alloc_cache_block: an empty index block in the cache */
  function Cached(s: Build): Build { s.(next := s.next + 1, cache := s.cache[s.next := ZeroBytes()]) }

  /** update_cache on that place: its index block, a new one if there is none */
  function WithIndex(s: Build, h: Slot): Build
    requires s.next <= s.ninos
    requires At(s.View(), h) == 0 ==> s.next < s.ninos <= WORD_LIMIT && CanNote(Cached(s), h)
  {
    if At(s.View(), h) != 0 then s else Noted(Cached(s), h, s.next)
  }

  lemma ViewHeld(s: Build, raw: Raw)
    requires s.next < s.ninos && s.next !in s.cache
    ensures s.next < |s.View().free| && Allocated(s, raw).View() == Held(s.View(), s.next, raw)
  {
    hide FreemapOf;
    FreemapNext(s.ninos, s.next);
  }

  lemma ViewCached(s: Build)
    requires s.next < s.ninos
    ensures s.next < |s.View().free| && Cached(s).View() == Take(s.View(), s.next)
  {
    hide FreemapOf;
    FreemapNext(s.ninos, s.next);
  }

  lemma FreemapNext(ninos: nat, next: nat)
    requires next < ninos
    ensures FreemapOf(ninos, next + 1) == FreemapOf(ninos, next)[next := false]
  {}

  /** Allocating and filling the next block: it belongs to nobody yet. */
  lemma AllocatedGood(s: Build, reserved: set<nat>, raw: Raw)
    requires Good(s, reserved) && s.next < s.ninos
    ensures var r := Allocated(s, raw);
            && Good(r, reserved + {s.next}) && s.next !in reserved && SameFiles(s.View(), r.View())
            && r.View().Block(s.next) == raw && forall o :: At(r.View(), o) == At(s.View(), o)
  {
    hide Valid, SameFiles, At, FreemapOf, Held;
    ViewHeld(s, raw);
    assert s.View().free[s.next] by { FreeNext(s); }
    HeldFacts(s.View(), reserved, s.next, raw);
  }

  lemma FreeNext(s: Build)
    requires s.next < s.ninos
    ensures s.next < |s.View().free| && s.View().free[s.next]
  {}

  /** The places that come before an index block can be recorded are filled, and there is a block for it. */
  ghost predicate CanIndex(s: Build, h: Slot)
    requires s.next <= s.ninos
  {
    && IsIndex(h) && h.ino in s.inodes
    && (h.Middle? ==> h.i < NENTRY && At(s.View(), Double(h.ino)) != 0) && (At(s.View(), h) == 0 ==> s.next < s.ninos)
  }

  /** The same files, the same contents of what belongs to nobody, the same inodes but for the index blocks of one */
  ghost predicate Unmoved(s: Fs, r: Fs, reserved: set<nat>, ino: nat) {
    && SameFiles(s, r) && (forall x: nat | x in reserved :: r.Block(x) == s.Block(x))
    && (forall j | j in s.inodes && j != ino :: r.inodes[j] == s.inodes[j])
    && (ino in s.inodes ==>
          r.inodes[ino] == s.inodes[ino].(indirect := r.inodes[ino].indirect, double := r.inodes[ino].double))
  }

  lemma UnmovedBoth(s: Fs, t: Fs, r: Fs, reserved: set<nat>, ino: nat)
    requires Unmoved(s, t, reserved, ino) && Unmoved(t, r, reserved, ino)
    ensures Unmoved(s, r, reserved, ino)
  {
    hide FileBlocks;
    forall j | j in s.inodes
      ensures |FileBlocks(s, j)| == s.inodes[j].blocks && |FileBlocks(t, j)| == t.inodes[j].blocks
    {
      SfsIo.SameSize(s, j);
      SfsIo.SameSize(t, j);
    }
  }

  /** update_cache keeps the image good and changes no file. */
  lemma WithIndexGood(s: Build, reserved: set<nat>, h: Slot)
    requires Good(s, reserved) && CanIndex(s, h)
    ensures At(s.View(), h) == 0 ==> s.next < s.ninos <= WORD_LIMIT && CanNote(Cached(s), h)
    ensures var r := WithIndex(s, h);
            && Good(r, reserved) && Unmoved(s.View(), r.View(), reserved, h.ino)
            && At(r.View(), h) != 0 && (forall o | o != h :: At(r.View(), o) == At(s.View(), o))
            && r.ninos == s.ninos && r.next == s.next + (if At(s.View(), h) == 0 then 1 else 0)
  {
    hide Valid, SameFiles, At, FreemapOf, Noted, CanNote, Placed;
    var v := s.View();
    if At(v, h) == 0 {
      FreeNext(s);
      NewIndexGood(s, reserved, h);
    } else {
      UnmovedSelf(v, reserved, h.ino);
    }
  }

  lemma UnmovedSelf(s: Fs, reserved: set<nat>, ino: nat)
    ensures Unmoved(s, s, reserved, ino)
  {}

  lemma NewIndexGood(s: Build, reserved: set<nat>, h: Slot)
    requires Good(s, reserved) && CanIndex(s, h) && At(s.View(), h) == 0
    ensures s.next < s.ninos <= WORD_LIMIT && CanNote(Cached(s), h)
    ensures var r := Noted(Cached(s), h, s.next);
            && Good(r, reserved) && Unmoved(s.View(), r.View(), reserved, h.ino)
            && (forall o :: At(r.View(), o) == if o == h then s.next else At(s.View(), o)) && s.next != 0
            && r.ninos == s.ninos && r.next == s.next + 1
  {
    hide SameFiles, At, FreemapOf, Noted, IsOwned, CountTrue, ShapeOk, Packed;
    var v := s.View();
    FreeNext(s);
    IndexPlaced(s, reserved, h);
    AddIndexFacts(v, reserved, h, s.next);
    ViewCached(s);
    ViewNoted(Cached(s), h, s.next);
    var r := Noted(Cached(s), h, s.next);
    assert r.View() == Assign(v, h, s.next);
    IndexKeeps(s, reserved, h);
    hide Assign, Owned;
    NotedKeeps(Cached(s), h, s.next);
  }

  lemma NotedKeeps(s: Build, h: Slot, b: nat)
    requires CanNote(s, h) && b < WORD_LIMIT && IsIndex(h)
    ensures var r, ino := Noted(s, h, b), h.ino;
            && r.ninos == s.ninos && r.next == s.next && r.inodes.Keys == s.inodes.Keys
            && (forall j | j in s.inodes && j != ino :: r.inodes[j] == s.inodes[j])
            && r.inodes[ino] == s.inodes[ino].(indirect := r.inodes[ino].indirect, double := r.inodes[ino].double)
  {
    hide At, SetWord, FreemapOf;
  }

  lemma IndexPlaced(s: Build, reserved: set<nat>, h: Slot)
    requires Good(s, reserved) && CanIndex(s, h) && At(s.View(), h) == 0
    ensures Fillable(s.View(), h) && CanNote(Cached(s), h)
  {
    hide FreemapOf, WordAt, IsOwned, CountTrue, Packed;
    assert ShapeOk(s.View(), h.ino);
    FreeNext(s);
    ViewCached(s);
    TakeShapes(s.View(), s.next);
    if h.Middle? {
      TakeAt(s.View(), reserved, s.next, Double(h.ino));
    }
  }

  lemma IndexKeeps(s: Build, reserved: set<nat>, h: Slot)
    requires Good(s, reserved) && s.next < s.ninos && Fillable(s.View(), h) && IsIndex(h)
    ensures |s.View().free| <= WORD_LIMIT
    ensures forall x: nat | x in reserved :: Assign(s.View(), h, s.next).Block(x) == s.View().Block(x)
  {
    hide At, FreemapOf, CountTrue, ShapeOk, Packed;
    var v := s.View();
    FreeNext(s);
    AssignFacts(v, reserved, h, s.next);
    FreeBlockFacts(v, reserved, h, s.next);
    forall x: nat | x in reserved ensures Assign(v, h, s.next).Block(x) == v.Block(x) {
      assert x != s.next;
      assert InBlock(h) ==> At(v, Holder(h)) != 0 ==> At(v, Holder(h)) !in reserved;
    }
  }

  /** append_block: the index blocks on the way to block n of a file */
  predicate HasIndex(s: Build, ino: nat, n: nat)
    requires s.next <= s.ninos
  {
    && (NDIRECT <= n < MAXBLOCKS ==> At(s.View(), Indirect(ino)) != 0)
    && (MAXBLOCKS <= n ==> At(s.View(), Double(ino)) != 0 && At(s.View(), Middle(ino, (n - MAXBLOCKS) / NENTRY)) != 0)
  }

  /** How many of them are missing */
  function Missing(s: Build, ino: nat, n: nat): nat
    requires s.next <= s.ninos
  {
    if n < NDIRECT then 0
    else if n < MAXBLOCKS then (if At(s.View(), Indirect(ino)) == 0 then 1 else 0)
    else if At(s.View(), Double(ino)) == 0 then 2
    else if At(s.View(), Middle(ino, (n - MAXBLOCKS) / NENTRY)) == 0 then 1 else 0
  }

  /** The blocks it takes to append one to a file */
  function Want(s: Build, ino: nat): nat
    requires s.next <= s.ninos && ino in s.inodes
  {
    1 + Missing(s, ino, s.inodes[ino].blocks)
  }

  lemma UnmovedKeys(s: Fs, r: Fs, reserved: set<nat>, ino: nat)
    requires Unmoved(s, r, reserved, ino) && ino in s.inodes
    ensures r.inodes.Keys == s.inodes.Keys && r.inodes[ino].blocks == s.inodes[ino].blocks
    ensures r.inodes[ino].size == s.inodes[ino].size && forall x: nat | x in reserved :: r.Block(x) == s.Block(x)
  {}

  /** Without the block of index blocks there is no index block in it. */
  lemma NoMiddle(s: Fs, ino: nat, i: nat)
    ensures At(s, Double(ino)) == 0 ==> At(s, Middle(ino, i)) == 0
  {}

  lemma DeepHome(s: Build, ino: nat, i: nat)
    requires CanNote(s, Deep(ino, i))
    ensures ino in s.inodes && s.inodes[ino].double in s.cache && i / NENTRY < NENTRY
    ensures At(s.View(), Middle(ino, i / NENTRY)) == WordAt(s.cache[s.inodes[ino].double], i / NENTRY)
  {
    hide FreemapOf, WordAt;
  }

  lemma MissingSame(s: Build, t: Build, ino: nat)
    requires s.next <= s.ninos && t.next <= t.ninos && ino in s.inodes && t.inodes == s.inodes
    requires forall o :: At(t.View(), o) == At(s.View(), o)
    ensures Want(t, ino) == Want(s, ino)
  {
    hide At, FreemapOf;
  }

  /** One file has one more block, with that in it; the others have the blocks and the contents they had. */
  ghost predicate LongerBy(s: Fs, r: Fs, ino: nat, b: nat, raw: Raw) {
    && ino in s.inodes && r.inodes.Keys == s.inodes.Keys
    && FileBlocks(r, ino) == FileBlocks(s, ino) + [b] && FileData(r, ino) == FileData(s, ino) + [raw]
    && forall j | j in s.inodes && j != ino ::
         FileBlocks(r, j) == FileBlocks(s, j) && FileData(r, j) == FileData(s, j)
  }

  lemma GrewData(s: Fs, t: Fs, r: Fs, ino: nat, b: nat, raw: Raw)
    requires SameFiles(s, t) && Grew(t, r, ino, b, raw) && ino in s.inodes
    ensures LongerBy(s, r, ino, b, raw)
  {
    hide FileBlocks, FileData;
    SameFilesData(s, t);
  }

  // --- a block at the end of a file ---

  function Resized(s: Fs, ino: nat, size: nat): Fs
    requires ino in s.inodes
  {
    s.(inodes := s.inodes[ino := s.inodes[ino].(size := size)])
  }

  lemma ResizedGrew(s: Fs, w: Fs, reserved: set<nat>, ino: nat, b: nat, raw: Raw, size: nat)
    requires Valid(w, reserved) && Grew(s, w, ino, b, raw)
    ensures Valid(Resized(w, ino, size), reserved) && Grew(s, Resized(w, ino, size), ino, b, raw)
  {
    hide Valid, FileBlocks, FileData;
    SizedFacts(w, reserved, ino, size);
    var r := Resized(w, ino, size);
    forall j | j in s.inodes ensures FileData(r, j) == FileData(w, j) {
      SameData(w, r, j);
    }
  }

  lemma SameData(s: Fs, r: Fs, j: nat)
    requires j in s.inodes && j in r.inodes && r.disk == s.disk && FileBlocks(r, j) == FileBlocks(s, j)
    ensures FileData(r, j) == FileData(s, j)
  {
    hide At;
    assert |FileBlocks(r, j)| == r.inodes[j].blocks && |FileBlocks(s, j)| == s.inodes[j].blocks;
  }

  lemma GrewAfter(s: Fs, t: Fs, r: Fs, reserved: set<nat>, ino: nat, b: nat, raw: Raw)
    requires Unmoved(s, t, reserved, ino) && Grew(t, r, ino, b, raw)
    ensures Grew(s, r, ino, b, raw)
  {
    hide FileBlocks, FileData;
    SameFilesData(s, t);
  }

  /** The end of append_block: b recorded at the end of the file, and the inode brought up to date */
  function Ended(s: Build, ino: nat, b: nat, size: nat): Build
    requires ino in s.inodes && CanNote(s, FileSlot(ino, s.inodes[ino].blocks)) && b < WORD_LIMIT
  {
    var t := Noted(s, FileSlot(ino, s.inodes[ino].blocks), b);
    t.(inodes := t.inodes[ino := t.inodes[ino].(blocks := s.inodes[ino].blocks + 1, size := s.inodes[ino].size + size)])
  }

  lemma ViewEnded(s: Build, ino: nat, b: nat, size: nat)
    requires ino in s.inodes && CanNote(s, FileSlot(ino, s.inodes[ino].blocks)) && b < WORD_LIMIT
    ensures Ended(s, ino, b, size).View() == Resized(Adopt(s.View(), ino, b), ino, s.inodes[ino].size + size)
    ensures Ended(s, ino, b, size).cache.Keys == s.cache.Keys && Ended(s, ino, b, size).next == s.next
  {
    hide Put, Noted, FreemapOf, Placed;
    ViewNoted(s, FileSlot(ino, s.inodes[ino].blocks), b);
    NotedNext(s, FileSlot(ino, s.inodes[ino].blocks), b);
  }

  lemma NotedNext(s: Build, slot: Slot, b: nat)
    requires CanNote(s, slot) && b < WORD_LIMIT
    ensures Noted(s, slot, b).next == s.next && Noted(s, slot, b).ninos == s.ninos
    ensures slot.ino in Noted(s, slot, b).inodes && Noted(s, slot, b).inodes[slot.ino].size == s.inodes[slot.ino].size
  {
    hide At, SetWord, FreemapOf;
  }

  /** With its index blocks there, the end of the file can be recorded. */
  lemma EndPlaced(s: Build, reserved: set<nat>, ino: nat)
    requires Good(s, reserved) && ino in s.inodes && s.inodes[ino].blocks < MAXFILE
    requires HasIndex(s, ino, s.inodes[ino].blocks)
    ensures CanNote(s, FileSlot(ino, s.inodes[ino].blocks))
  {
    hide At, FreemapOf, IsOwned, CountTrue, Packed;
    assert ShapeOk(s.View(), ino);
  }

  /** A block that belonged to nobody becomes the last of the file, with what it holds; no other file changes. */
  lemma EndedGood(s: Build, reserved: set<nat>, ino: nat, b: nat, size: nat)
    requires Good(s, reserved + {b}) && 0 in reserved && b !in reserved && ino in s.inodes
    requires s.inodes[ino].blocks < MAXFILE && CanNote(s, FileSlot(ino, s.inodes[ino].blocks))
    ensures b < WORD_LIMIT && Good(Ended(s, ino, b, size), reserved)
    ensures Grew(s.View(), Ended(s, ino, b, size).View(), ino, b, s.View().Block(b))
  {
    hide Valid, At, FreemapOf, Grew, Placed, Ended, Adopt, Resized, Put;
    var v := s.View();
    AdoptFacts(v, reserved, ino, b);
    ResizedGrew(v, Adopt(v, ino, b), reserved, ino, b, v.Block(b), s.inodes[ino].size + size);
    ViewEnded(s, ino, b, size);
    EndedKeys(s, ino, b, size);
    forall h | IsIndex(h) ensures At(Ended(s, ino, b, size).View(), h) == At(v, h) {
      EndedIndex(s, reserved, ino, b, size, h);
    }
  }

  lemma EndedKeys(s: Build, ino: nat, b: nat, size: nat)
    requires ino in s.inodes && CanNote(s, FileSlot(ino, s.inodes[ino].blocks)) && b < WORD_LIMIT
    ensures Ended(s, ino, b, size).inodes.Keys == s.inodes.Keys && Ended(s, ino, b, size).ninos == s.ninos
  {
    hide Put, Noted, FreemapOf, Placed;
    ViewNoted(s, FileSlot(ino, s.inodes[ino].blocks), b);
    NotedNext(s, FileSlot(ino, s.inodes[ino].blocks), b);
  }

  lemma EndedIndex(s: Build, reserved: set<nat>, ino: nat, b: nat, size: nat, h: Slot)
    requires Good(s, reserved + {b}) && ino in s.inodes && b < WORD_LIMIT && IsIndex(h)
    requires CanNote(s, FileSlot(ino, s.inodes[ino].blocks))
    ensures At(Ended(s, ino, b, size).View(), h) == At(s.View(), h)
  {
    hide Placed, FreemapOf, Put, Noted, Ended, Word;
    var n := s.inodes[ino].blocks;
    ViewEnded(s, ino, b, size);
    FileSlotFacts(ino, n, 0, 0);
    OwnedInjective(s.View(), reserved + {b});
    PutAt(s.View(), FileSlot(ino, n), b, h);
    var p := Put(s.View(), FileSlot(ino, n), b);
    SameIndex(p, Resized(Adopt(s.View(), ino, b), ino, s.inodes[ino].size + size), h);
  }

  lemma SameIndex(s: Fs, r: Fs, h: Slot)
    requires IsIndex(h) && r.disk == s.disk && r.inodes.Keys == s.inodes.Keys
    requires forall j | j in s.inodes ::
               r.inodes[j].indirect == s.inodes[j].indirect && r.inodes[j].double == s.inodes[j].double
    ensures At(r, h) == At(s, h)
  {}
}

/** mksfs as a program that fills an image, and sfs_do_mount reading it. */
module Mksfs {
  import opened Counting
  import opened Bits
  import opened BitmapModel
  import opened DiskBlocks
  import opened SfsModel
  import opened Sfs
  import SfsIo
  import opened MksfsModel

  class Image {
    const ninos: nat
    var nextIno: nat
    var unused: nat
    var inodes: map<nat, Inode>
    /** The blocks written to the image, and the index blocks still in memory */
    var disk: map<nat, Raw>
    var cache: map<nat, Raw>
    /** Blocks that are no file's: superblock, freemap, inodes, and numbers past the end of the image */
    ghost var reserved: set<nat>
    /** The blocks appended to each file, and what was written into them */
    ghost var appended: map<nat, seq<nat>>
    ghost var written: map<nat, seq<Raw>>

    ghost function Abs(): Build
      reads this
    {
      Build(ninos, nextIno, inodes, disk, cache)
    }

    ghost predicate Valid()
      reads this
    {
      && Good(Abs(), reserved) && unused == ninos - nextIno && appended.Keys == written.Keys == inodes.Keys
      && forall j | j in inodes :: FileBlocks(Abs().View(), j) == appended[j] && FileData(Abs().View(), j) == written[j]
    }

    /** create_sfs: an empty root directory; the source gives up on an image too small for its own freemap */
    constructor (blocks: nat)
      requires var n := if blocks > MAX_NBLKS then MAX_NBLKS else blocks; BLKN_FREEMAP + FreemapBlocks(n) < n
      ensures Valid() && appended == map[BLKN_ROOT := []] && ninos == if blocks > MAX_NBLKS then MAX_NBLKS else blocks
      ensures unused == ninos - (BLKN_FREEMAP + FreemapBlocks(ninos))
    {
      var n := if blocks > MAX_NBLKS then MAX_NBLKS else blocks;
      ninos, nextIno, unused := n, BLKN_FREEMAP + FreemapBlocks(n), n - (BLKN_FREEMAP + FreemapBlocks(n));
      inodes, disk, cache := map[BLKN_ROOT := Inode(0, 0, Zeros(NDIRECT), 0, 0)], map[], map[];
      reserved, appended, written := InUse(NewBuild(n)), map[BLKN_ROOT := []], map[BLKN_ROOT := []];
      NewBuildGood(n);
    }

    /** sfs_alloc_ino; nothing when the disk is full */
    method AllocIno() returns (ino: Option<nat>)
      requires nextIno <= ninos && unused == ninos - nextIno
      modifies this`nextIno, this`unused
      ensures ino == if old(nextIno) < ninos then Some(old(nextIno)) else None
      ensures nextIno == old(nextIno) + (if ino.Some? then 1 else 0) && unused == ninos - nextIno
    {
      if nextIno < ninos {
        unused := unused - 1;
        ino := Some(nextIno);
        nextIno := nextIno + 1;
      } else {
        ino := None;
      }
    }

    /** alloc_cache_inode: a new file without blocks */
    method NewFile() returns (ino: Option<nat>)
      requires Valid()
      modifies this
      ensures Valid() && (ino.None? <==> old(unused) == 0)
      ensures (ino.None? ==> appended == old(appended) && written == old(written))
      ensures ino.Some? ==> ino.value !in old(appended) && ino.value !in old(written) && ino.value in inodes
      ensures ino.Some? ==> inodes[ino.value].blocks == 0 == inodes[ino.value].size && unused == old(unused) - 1
      ensures ino.Some? ==> appended == old(appended)[ino.value := []] && written == old(written)[ino.value := []]
    {
      hide Good, FileBlocks, FileData, FreemapOf, FileAdded;
      ghost var s := Abs();
      Bounds(reserved);
      ino := AddInode();
      if ino.Some? {
        FileAddedGood(s, reserved);
        NoData(FileAdded(s).View(), s.next);
        reserved := reserved + {s.next};
        appended, written := appended[s.next := []], written[s.next := []];
      }
    }

    method AddInode() returns (ino: Option<nat>)
      requires nextIno <= ninos && unused == ninos - nextIno
      modifies this`nextIno, this`unused, this`inodes
      ensures nextIno == old(nextIno) + (if ino.Some? then 1 else 0) && unused == ninos - nextIno
      ensures ino == if old(nextIno) < ninos then Some(old(nextIno)) else None
      ensures Abs() == if ino.Some? then FileAdded(old(Abs())) else old(Abs())
      ensures ino.Some? ==> ino.value in inodes && inodes[ino.value].blocks == 0 == inodes[ino.value].size
    {
      ino := AllocIno();
      if ino.Some? {
        inodes := inodes[ino.value := Inode(0, 0, Zeros(NDIRECT), 0, 0)];
      }
    }

    lemma NoData(s: Fs, ino: nat)
      requires ino in s.inodes && FileBlocks(s, ino) == []
      ensures FileData(s, ino) == []
    {
      assert |FileBlocks(s, ino)| == s.inodes[ino].blocks;
    }

    lemma Bounds(held: set<nat>)
      requires Good(Abs(), held)
      ensures 0 < nextIno <= ninos <= MAX_NBLKS && 0 in held
    {
      assert 0 in held;
    }

    /** update_cache: the index block recorded there, a new one if there is none; false when the disk is full */
    method UpdateCache(h: Slot, ghost held: set<nat>) returns (ok: bool)
      requires Good(Abs(), held) && unused == ninos - nextIno && IsIndex(h) && h.ino in inodes
      requires h.Middle? ==> h.i < NENTRY && At(Abs().View(), Double(h.ino)) != 0
      modifies this`nextIno, this`unused, this`inodes, this`cache
      ensures ok <==> At(old(Abs().View()), h) != 0 || old(unused) > 0
      ensures ok ==> Good(Abs(), held) && unused == ninos - nextIno && At(Abs().View(), h) != 0
      ensures ok ==> Unmoved(old(Abs().View()), Abs().View(), held, h.ino)
      ensures ok ==> forall o | o != h :: At(Abs().View(), o) == At(old(Abs().View()), o)
      ensures ok ==> unused == old(unused) - (if At(old(Abs().View()), h) == 0 then 1 else 0)
    {
      hide Good, At, FreemapOf, Unmoved, CanNote, Noted;
      ghost var s := Abs();
      Bounds(held);
      var ent := EntryAt(h, held);
      if ent == 0 {
        var e := AllocIno();
        if e.None? {
          return false;
        }
        WithIndexGood(s, held, h);
        cache := cache[e.value := ZeroBytes()];
        Note(h, e.value);
      } else {
        WithIndexGood(s, held, h);
      }
      ok := true;
    }

    /** The number of an index block, in the inode or in the cached block it is recorded in */
    method EntryAt(h: Slot, ghost held: set<nat>) returns (e: nat)
      requires Good(Abs(), held) && IsIndex(h) && h.ino in inodes
      requires h.Middle? ==> h.i < NENTRY && At(Abs().View(), Double(h.ino)) != 0
      ensures e == At(Abs().View(), h)
    {
      hide FreemapOf, WordAt;
      assert h.Middle? ==> At(Abs().View(), Double(h.ino)) in cache;
      match h
      case Indirect(ino) => e := inodes[ino].indirect;
      case Double(ino) => e := inodes[ino].double;
      case Middle(ino, i) => e := WordAt(cache[inodes[ino].double], i);
    }

    /** A block number goes into the inode, or into a cached index block. */
    method Note(slot: Slot, b: nat)
      requires CanNote(Abs(), slot) && b < WORD_LIMIT
      modifies this`inodes, this`cache
      ensures Abs() == Noted(old(Abs()), slot, b)
    {
      hide FreemapOf, SetWord, WordAt;
      var node := inodes[slot.ino];
      match slot
      case Direct(ino, i) => inodes := inodes[ino := node.(direct := node.direct[i := b])];
      case Indirect(ino) => inodes := inodes[ino := node.(indirect := b)];
      case Double(ino) => inodes := inodes[ino := node.(double := b)];
      case Entry(_, i) => cache := cache[node.indirect := SetWord(cache[node.indirect], i, b)];
      case Middle(_, i) => cache := cache[node.double := SetWord(cache[node.double], i, b)];
      case Deep(ino, i) =>
        DeepHome(Abs(), ino, i);
        var l1 := WordAt(cache[node.double], i / NENTRY);
        cache := cache[l1 := SetWord(cache[l1], i % NENTRY, b)];
    }

    /** The index blocks append_block needs for block n of a file; false when the disk is full */
    method UpdateCaches(ino: nat, n: nat, ghost held: set<nat>) returns (ok: bool)
      requires Good(Abs(), held) && unused == ninos - nextIno && ino in inodes && n < MAXFILE
      modifies this`nextIno, this`unused, this`inodes, this`cache
      ensures ok <==> old(unused) >= old(Missing(Abs(), ino, n))
      ensures ok ==> Good(Abs(), held) && unused == ninos - nextIno && HasIndex(Abs(), ino, n)
      ensures ok ==> Unmoved(old(Abs().View()), Abs().View(), held, ino)
      ensures ok ==> unused == old(unused) - old(Missing(Abs(), ino, n))
    {
      hide Good, At, FreemapOf, Unmoved;
      ghost var s := Abs();
      Bounds(held);
      UnmovedSelf(s.View(), held, ino);
      ok := true;
      if NDIRECT <= n < MAXBLOCKS {
        ok := UpdateCache(Indirect(ino), held);
      } else if n >= MAXBLOCKS {
        ok := UpdateCache(Double(ino), held);
        if ok {
          ghost var t := Abs();
          NoMiddle(s.View(), ino, (n - MAXBLOCKS) / NENTRY);
          UnmovedKeys(s.View(), t.View(), held, ino);
          ok := UpdateCache(Middle(ino, (n - MAXBLOCKS) / NENTRY), held);
          if ok {
            UnmovedBoth(s.View(), t.View(), Abs().View(), held, ino);
          }
        }
      }
      if ok {
        Bounds(held);
      }
    }

    /**
      append_block: block b, which has been written but is nobody's yet, becomes the last of the file. False when the
      file is too big or the disk is full.
      */
    method AppendBlock(ino: nat, size: nat, b: nat) returns (ok: bool)
      requires Good(Abs(), reserved + {b}) && 0 in reserved && b !in reserved && unused == ninos - nextIno
      requires ino in inodes
      modifies this`nextIno, this`unused, this`inodes, this`cache
      ensures ok <==> old(inodes[ino].blocks) < MAXFILE && old(unused) >= old(Missing(Abs(), ino, inodes[ino].blocks))
      ensures ok ==> Good(Abs(), reserved) && unused == ninos - nextIno
      ensures ok ==> Grew(old(Abs().View()), Abs().View(), ino, b, old(Abs().View()).Block(b))
      ensures ok ==> unused == old(unused) - old(Missing(Abs(), ino, inodes[ino].blocks))
      ensures ok ==> inodes.Keys == old(inodes).Keys && inodes[ino].size == old(inodes[ino].size) + size
      ensures ok ==> inodes[ino].blocks == old(inodes[ino].blocks) + 1
    {
      hide Good, At, FreemapOf, Unmoved, Grew, CanNote, Noted, HasIndex, Missing;
      ghost var s := Abs();
      Bounds(reserved + {b});
      var n := inodes[ino].blocks;
      if n >= MAXFILE {
        return false;
      }
      ok := UpdateCaches(ino, n, reserved + {b});
      if !ok {
        return;
      }
      ghost var t := Abs();
      UnmovedKeys(s.View(), t.View(), reserved + {b}, ino);
      EndPlaced(t, reserved + {b}, ino);
      EndedGood(t, reserved, ino, b, size);
      Note(FileSlot(ino, n), b);
      NotedNext(t, FileSlot(ino, n), b);
      inodes := inodes[ino := inodes[ino].(blocks := n + 1, size := inodes[ino].size + size)];
      assert Abs() == Ended(t, ino, b, size);
      EndedKeys(t, ino, b, size);
      GrewAfter(s.View(), t.View(), Abs().View(), reserved + {b}, ino, b, t.View().Block(b));
      Bounds(reserved);
    }

    /**
      How open_file, open_link and add_entry extend a file: allocate a block, write it, append it. False when the file
      is too big or the disk is full, where the source gives up.
      */
    method AddBlock(ino: nat, bytes: seq<Byte>) returns (ok: bool)
      requires Valid() && ino in inodes && |bytes| <= BLKSIZE
      modifies this
      ensures ok <==> old(inodes[ino].blocks) < MAXFILE && old(unused) >= old(Want(Abs(), ino))
      ensures ok ==> Valid() && appended == old(appended)[ino := old(appended[ino]) + [old(nextIno)]]
      ensures ok ==> written == old(written)[ino := old(written[ino]) + [Padded(bytes)]]
      ensures ok ==> inodes.Keys == old(inodes).Keys && inodes[ino].size == old(inodes[ino].size) + |bytes|
      ensures ok ==> inodes[ino].blocks == old(inodes[ino].blocks) + 1 && unused == old(unused) - old(Want(Abs(), ino))
    {
      hide Good, At, FileBlocks, FileData, Padded, FreemapOf, Missing;
      ghost var b := nextIno;
      Bounds(reserved);
      ok := WriteAndAppend(ino, bytes);
      if ok {
        appended := appended[ino := appended[ino] + [b]];
        written := written[ino := written[ino] + [Padded(bytes)]];
      }
    }

    /** sfs_alloc_ino, write_block and append_block */
    method WriteAndAppend(ino: nat, bytes: seq<Byte>) returns (ok: bool)
      requires Good(Abs(), reserved) && unused == ninos - nextIno && ino in inodes && |bytes| <= BLKSIZE
      modifies this`nextIno, this`unused, this`inodes, this`disk, this`cache
      ensures ok <==> old(inodes[ino].blocks) < MAXFILE && old(unused) >= old(Want(Abs(), ino))
      ensures ok ==> Good(Abs(), reserved) && unused == ninos - nextIno
      ensures ok ==> LongerBy(old(Abs().View()), Abs().View(), ino, old(nextIno), Padded(bytes))
      ensures ok ==> inodes.Keys == old(inodes).Keys && inodes[ino].size == old(inodes[ino].size) + |bytes|
      ensures ok ==> inodes[ino].blocks == old(inodes[ino].blocks) + 1 && unused == old(unused) - old(Want(Abs(), ino))
    {
      hide Good, At, FileBlocks, FileData, Padded, FreemapOf, Missing, SameFiles, Grew, LongerBy;
      ghost var s := Abs();
      Bounds(reserved);
      var b := AllocIno();
      if b.None? {
        return false;
      }
      disk := disk[b.value := Padded(bytes)];
      ghost var t := Abs();
      assert t == Allocated(s, Padded(bytes));
      AllocatedGood(s, reserved, Padded(bytes));
      MissingSame(s, t, ino);
      ok := AppendBlock(ino, |bytes|, b.value);
      if ok {
        GrewData(s.View(), t.View(), Abs().View(), ino, b.value, Padded(bytes));
      }
    }

    /** One block of the freemap close_sfs writes: the bits of blocks i, i + 1, ..., as words */
    method FreemapBlock(i: nat) returns (buffer: seq<seq<bool>>)
      requires nextIno <= ninos && i < ninos
      ensures |buffer| == NENTRY && forall x | 0 <= x < NENTRY :: |buffer[x]| == WORD_BITS
      ensures forall j | 0 <= j < BLKBITS :: buffer[j / WORD_BITS][j % WORD_BITS] <==> nextIno <= i + j < ninos
    {
      buffer := seq(NENTRY, _ => seq(WORD_BITS, _ => false));
      if i + BLKBITS > nextIno {
        var start, end := 0, BLKBITS;
        if i < nextIno {
          start := nextIno - i;
        }
        if i + BLKBITS > ninos {
          end := ninos - i;
        }
        for j := start to end
          invariant |buffer| == NENTRY && forall x | 0 <= x < NENTRY :: |buffer[x]| == WORD_BITS
          invariant forall k | 0 <= k < BLKBITS :: buffer[k / WORD_BITS][k % WORD_BITS] <==> start <= k < j
        {
          buffer := buffer[j / WORD_BITS := buffer[j / WORD_BITS][j % WORD_BITS := true]];
        }
      }
    }

    /** The freemap loop of close_sfs: the words it writes hold exactly the bits of the blocks never handed out */
    method Freemap() returns (words: seq<seq<bool>>)
      requires nextIno <= ninos
      ensures forall x | 0 <= x < |words| :: |words[x]| == WORD_BITS
      ensures Flatten(words) == FreemapOf(ninos, nextIno)
    {
      hide FreemapOf, Flatten;
      words := [];
      var i, n := 0, 0;
      while i < ninos
        invariant i == n * BLKBITS && |words| == n * NENTRY && n <= FreemapBlocks(ninos)
        invariant forall x | 0 <= x < |words| :: |words[x]| == WORD_BITS
        invariant forall k | 0 <= k < i :: words[k / WORD_BITS][k % WORD_BITS] <==> nextIno <= k < ninos
        decreases ninos - i
      {
        var buffer := FreemapBlock(i);
        ghost var before := words;
        words := words + buffer;
        forall k | 0 <= k < i + BLKBITS ensures words[k / WORD_BITS][k % WORD_BITS] <==> nextIno <= k < ninos {
          if k >= i {
            WordSplit(n, k - i);
            assert words[k / WORD_BITS] == buffer[(k - i) / WORD_BITS];
          } else {
            assert words[k / WORD_BITS] == before[k / WORD_BITS];
          }
        }
        i, n := i + BLKBITS, n + 1;
      }
      assert forall k | 0 <= k < |words| * WORD_BITS :: Flatten(words)[k] == words[k / WORD_BITS][k % WORD_BITS];
    }

    lemma WordSplit(n: nat, j: nat)
      ensures (n * BLKBITS + j) / WORD_BITS == n * NENTRY + j / WORD_BITS
      ensures (n * BLKBITS + j) % WORD_BITS == j % WORD_BITS
    {
      assert n * BLKBITS == n * NENTRY * WORD_BITS;
    }

    /**
      close_sfs: freemap, superblock, cached blocks and inodes go to the image, which then is the view it had all along
      */
    method Close() returns (img: Fs)
      requires Valid()
      modifies this`disk
      ensures img == old(Abs().View()) && SfsModel.Valid(img, reserved)
      ensures forall j | j in inodes :: FileBlocks(img, j) == appended[j] && FileData(img, j) == written[j]
    {
      hide Good, FileBlocks, FileData, FreemapOf, SfsModel.Valid;
      GoodView();
      var words := Freemap();
      Flush();
      img := Fs(Flatten(words), unused, inodes, disk);
    }

    /** The loop of close_sfs over the cached blocks */
    method Flush()
      modifies this`disk
      ensures disk == old(disk) + cache
    {
      var left := cache.Keys;
      while left != {}
        invariant left <= cache.Keys && disk.Keys == old(disk).Keys + (cache.Keys - left)
        invariant forall e | e in disk :: disk[e] == if e in cache && e !in left then cache[e] else old(disk)[e]
        decreases |left|
      {
        var e :| e in left;
        disk := disk[e := cache[e]];
        left := left - {e};
      }
    }

    /** What is appended and written is one to one, and appending takes at most three blocks. */
    lemma Counts(ino: nat)
      requires Valid() && ino in inodes
      ensures nextIno <= ninos && Want(Abs(), ino) <= 3 && ino in appended && ino in written
      ensures |appended[ino]| == inodes[ino].blocks == |written[ino]|
    {
      hide At, FileBlocks, FreemapOf;
      SfsIo.SameSize(Abs().View(), ino);
    }

    lemma GoodView()
      requires Good(Abs(), reserved)
      ensures nextIno <= ninos && SfsModel.Valid(Abs().View(), reserved)
    {}
  }

  /** sfs_do_mount: the count over the freemap, which its assertion compares with the superblock */
  method Mount(img: Fs, ghost reserved: set<nat>) returns (f: FileSystem, unused: nat)
    requires Valid(img, reserved)
    ensures unused == CountTrue(img.free) && unused == img.unused
    ensures fresh(f) && fresh(f.freemap.map_) && f.Ok() && f.fs == img && f.reserved == reserved
  {
    hide Owned, Packed;
    f := new FileSystem(img, reserved);
    unused := 0;
    for i := 0 to |img.free|
      invariant unused == CountTrue(img.free[..i]) && f.Ok() && f.fs == img
    {
      CountSplit(img.free[..i], [img.free[i]]);
      assert img.free[..i + 1] == img.free[..i] + [img.free[i]];
      assert [img.free[i]][1..] == [];
      var set_ := f.freemap.Test(i);
      if set_ {
        unused := unused + 1;
      }
    }
    assert img.free[..|img.free|] == img.free;
  }

  /**
    The kernel finds the i-th block of every file where mksfs put it, with what mksfs wrote, unless it is past the reach
    of the index block, where it panics.
    */
  method ReadBack(image: Image, ino: nat, i: nat) returns (b: Option<nat>, raw: Raw)
    requires image.Valid() && ino in image.inodes && i < |image.appended[ino]|
    modifies image`disk
    ensures b == if i < MAXBLOCKS then Some(image.appended[ino][i]) else None
    ensures b.Some? ==> raw == image.written[ino][i]
  {
    hide Valid, At, Image.Valid, BitmapModel.Bitmap.Valid;
    var img := image.Close();
    var f, _ := Mount(img, image.reserved);
    SfsIo.SameSize(f.fs, ino);
    b := f.Lookup(ino, i);
    raw := if b.Some? then f.fs.Block(b.value) else ZeroBytes();
  }

  /** Every block of a file, one after the other; false where the kernel panics */
  method LookupAll(f: FileSystem, ino: nat) returns (ok: bool, data: seq<Raw>)
    requires f.Ok() && ino in f.fs.inodes
    ensures ok <==> f.fs.inodes[ino].blocks <= MAXBLOCKS
    ensures ok ==> data == FileData(f.fs, ino)
  {
    hide Valid, At;
    data := [];
    for i := 0 to f.fs.inodes[ino].blocks
      invariant i <= MAXBLOCKS && data == FileData(f.fs, ino)[..i]
    {
      var b := f.Lookup(ino, i);
      if b.None? {
        return false, data;
      }
      data := data + [f.fs.Block(b.value)];
    }
    ok := true;
  }

  /** The kernel reading a file of the image: what mksfs wrote if and only if it has no more than 1036 blocks */
  method ReadFile(image: Image, ino: nat) returns (ok: bool, data: seq<Raw>)
    requires image.Valid() && ino in image.inodes
    modifies image`disk
    ensures ok <==> |image.written[ino]| <= MAXBLOCKS
    ensures ok ==> data == image.written[ino]
  {
    hide Valid, At, FileBlocks, Image.Valid, BitmapModel.Bitmap.Valid;
    var img := image.Close();
    var f, _ := Mount(img, image.reserved);
    ok, data := LookupAll(f, ino);
  }

  /** mksfs builds a file of 1037 blocks without complaint, and the kernel cannot read it. */
  method OneBlockTooMany() returns (image: Image, ino: nat, ok: bool)
    ensures ino in image.appended && |image.appended[ino]| == MAXBLOCKS + 1 && !ok
  {
    hide Image.Valid, Missing, Padded;
    image := new Image(4000);
    var r := image.NewFile();
    ino := r.value;
    for i := 0 to MAXBLOCKS + 1
      invariant image.Valid() && ino in image.inodes && image.inodes[ino].blocks == i
      invariant ino in image.appended && |image.appended[ino]| == i
      invariant image.unused >= 3996 - 3 * i
    {
      image.Counts(ino);
      ok := image.AddBlock(ino, []);
    }
    image.Counts(ino);
    var data;
    ok, data := ReadFile(image, ino);
  }

  /**
    open_file: the contents block by block, each but the last full, so that the kernel finds a file as long as its
    blocks
    */
  method OpenFile(image: Image, chunks: seq<seq<Byte>>) returns (ino: Option<nat>)
    requires image.Valid() && forall i | 0 <= i < |chunks| :: 0 < |chunks[i]| <= BLKSIZE
    requires forall i | 0 <= i < |chunks| - 1 :: |chunks[i]| == BLKSIZE
    modifies image
    ensures |chunks| > MAXFILE ==> ino.None?
    ensures ino.Some? ==> image.Valid() && ino.value in image.inodes && ino.value !in old(image.written)
    ensures ino.Some? ==> ino.value in image.written && image.written[ino.value] == PaddedAll(chunks)
    ensures ino.Some? ==> image.inodes[ino.value].blocks == BlocksFor(image.inodes[ino.value].size)
    ensures ino.Some? ==>
              forall j | j in old(image.written) :: j in image.written && image.written[j] == old(image.written)[j]
  {
    hide Image.Valid, Padded, PaddedAll;
    PaddedStep(chunks[..0]);
    ino := image.NewFile();
    if ino.None? {
      return;
    }
    for i := 0 to |chunks|
      invariant image.Valid() && ino.Some? && ino.value in image.inodes && ino.value !in old(image.written)
      invariant ino.value in image.written && image.written[ino.value] == PaddedAll(chunks[..i])
      invariant image.inodes[ino.value].blocks == i <= MAXFILE
      invariant image.inodes[ino.value].size ==
                  if i < |chunks| || i == 0 then i * BLKSIZE else (i - 1) * BLKSIZE + |chunks[i - 1]|
      invariant forall j | j in old(image.written) :: j in image.written && image.written[j] == old(image.written)[j]
    {
      var ok := image.AddBlock(ino.value, chunks[i]);
      if !ok {
        return None;
      }
      assert chunks[..i + 1][..i] == chunks[..i];
      PaddedStep(chunks[..i + 1]);
    }
    assert chunks[..|chunks|] == chunks;
  }

  lemma PaddedStep(chunks: seq<seq<Byte>>)
    requires forall i | 0 <= i < |chunks| :: |chunks[i]| <= BLKSIZE
    ensures PaddedAll(chunks) ==
              if chunks == [] then [] else PaddedAll(chunks[..|chunks| - 1]) + [Padded(chunks[|chunks| - 1])]
  {}

  function PaddedAll(chunks: seq<seq<Byte>>): (r: seq<Raw>)
    requires forall i | 0 <= i < |chunks| :: |chunks[i]| <= BLKSIZE
    ensures |r| == |chunks| && forall i | 0 <= i < |r| :: r[i] == Padded(chunks[i])
  {
    if chunks == [] then [] else PaddedAll(chunks[..|chunks| - 1]) + [Padded(chunks[|chunks| - 1])]
  }
}
