/** Block ownership in the simple file system (kern/fs/sfs/sfs_inode.c), as values. */
module SfsModel {
  import opened Bits
  import opened DiskBlocks

  const NDIRECT: nat := 12

  /** The most blocks of a file the kernel can reach, which knows no double indirection */
  const MAXBLOCKS: nat := 1036

  /** SFS_MAX_FILE_SIZE / SFS_BLKSIZE: the most blocks of a file on the disk */
  const MAXFILE: nat := 32768

  /** double: the index block of index blocks, which mksfs fills and the kernel leaves alone */
  datatype Inode = Inode(size: nat, blocks: nat, direct: seq<nat>, indirect: nat, double: nat)

  /** free: the freemap; unused: super.unused_blocks; disk: the bytes of every block, whatever it is used for. */
  datatype Fs = Fs(free: seq<bool>, unused: nat, inodes: map<nat, Inode>, disk: map<nat, Raw>)
  {
    /** The contents of a block; one never written reads as zeros */
    function Block(b: nat): Raw { if b in disk then disk[b] else ZeroBytes() }
  }

  /** The places a block number can be recorded in: the inode, its index block, and the two levels behind `double` */
  datatype Slot =
    | Direct(ino: nat, i: nat)
    | Indirect(ino: nat)
    | Entry(ino: nat, i: nat)
    | Double(ino: nat)
    | Middle(ino: nat, i: nat)
    | Deep(ino: nat, i: nat)

  /** What is recorded there is an index block. */
  predicate IsIndex(slot: Slot) { slot.Indirect? || slot.Double? || slot.Middle? }

  /** The place is a word of an index block. */
  predicate InBlock(slot: Slot) { slot.Entry? || slot.Middle? || slot.Deep? }

  /** The place that records the index block a place is in, and which word of it it is */
  function Holder(slot: Slot): (h: Slot)
    requires InBlock(slot)
    ensures h.ino == slot.ino && IsIndex(h)
  {
    match slot
    case Entry(ino, _) => Indirect(ino)
    case Middle(ino, _) => Double(ino)
    case Deep(ino, i) => Middle(ino, i / NENTRY)
  }

  function Offset(slot: Slot): nat
    requires InBlock(slot)
  {
    if slot.Deep? then slot.i % NENTRY else slot.i
  }

  /** Word i of block b, or 0 if there is no such block or word */
  function Word(s: Fs, b: nat, i: nat): nat { if b != 0 && i < NENTRY then WordAt(s.Block(b), i) else 0 }

  /** The block number recorded there, or 0 */
  function At(s: Fs, slot: Slot): nat {
    if slot.ino !in s.inodes then 0
    else
      var node := s.inodes[slot.ino];
      match slot
      case Direct(_, i) => if i < |node.direct| then node.direct[i] else 0
      case Indirect(_) => node.indirect
      case Entry(_, i) => Word(s, node.indirect, i)
      case Double(_) => node.double
      case Middle(_, i) => Word(s, node.double, i)
      case Deep(_, i) => Word(s, Word(s, node.double, i / NENTRY), i % NENTRY)
  }

  lemma InBlockAt(s: Fs, slot: Slot)
    requires InBlock(slot)
    ensures At(s, slot) == Word(s, At(s, Holder(slot)), Offset(slot))
  {}

  /** Where block i of a file is recorded */
  function FileSlot(ino: nat, i: nat): Slot {
    if i < NDIRECT then Direct(ino, i) else if i < MAXBLOCKS then Entry(ino, i - NDIRECT) else Deep(ino, i - MAXBLOCKS)
  }

  predicate ShapeOk(s: Fs, ino: nat)
    requires ino in s.inodes
  {
    |s.inodes[ino].direct| == NDIRECT && s.inodes[ino].blocks <= MAXFILE
  }

  /** The first `blocks` places of a file are filled and the rest empty. */
  ghost predicate Packed(s: Fs, ino: nat)
    requires ino in s.inodes
  {
    forall i: nat | i < MAXFILE :: At(s, FileSlot(ino, i)) != 0 <==> i < s.inodes[ino].blocks
  }

  ghost predicate IsOwned(s: Fs, b: nat) { exists slot :: At(s, slot) == b && b != 0 }

  /** No block is recorded in two places. */
  ghost predicate Injective(s: Fs) { forall a, b :: At(s, a) != 0 && At(s, a) == At(s, b) ==> a == b }

  /** No block has two owners, and a block is in use exactly when it is reserved or has an owner. */
  ghost predicate Owned(s: Fs, reserved: set<nat>) {
    && 0 in reserved && |s.free| <= WORD_LIMIT && Injective(s)
    && (forall slot :: At(s, slot) != 0 ==> At(s, slot) < |s.free| && At(s, slot) !in reserved)
    && (forall b: nat | b < |s.free| :: !s.free[b] <==> b in reserved || IsOwned(s, b))
    && (forall b: nat | b in reserved :: b < |s.free|)
  }

  ghost predicate Valid(s: Fs, reserved: set<nat>) {
    && s.unused == CountTrue(s.free) && Owned(s, reserved)
    && (forall ino | ino in s.inodes :: ShapeOk(s, ino) && Packed(s, ino))
  }

  // --- one slot at a time ---

  function Zeros(n: nat): (z: seq<nat>)
    ensures |z| == n && forall i | 0 <= i < n :: z[i] == 0
  {
    seq(n, _ => 0)
  }

  /** bitmap_alloc, the count, and sfs_clear_block: block b leaves the freemap, zeroed */
  function Take(s: Fs, b: nat): Fs
    requires b < |s.free| && s.unused > 0
  {
    s.(free := s.free[b := false], unused := s.unused - 1, disk := s.disk[b := ZeroBytes()])
  }

  /** sfs_block_free */
  function Give(s: Fs, b: nat): (r: Fs)
    requires b < |s.free|
    ensures r.inodes == s.inodes && r.disk == s.disk
  {
    s.(free := s.free[b := true], unused := s.unused + 1)
  }

  /** A slot of a file that is there: within bounds, its index block present */
  predicate Placed(s: Fs, slot: Slot) {
    && slot.ino in s.inodes && ShapeOk(s, slot.ino) && (slot.Direct? ==> slot.i < NDIRECT)
    && (InBlock(slot) ==> At(s, Holder(slot)) != 0 && Offset(slot) < NENTRY)
  }

  /** Recording b in a slot: in the inode, or as a word of an index block on the disk */
  function Put(s: Fs, slot: Slot, b: nat): (r: Fs)
    requires Placed(s, slot) && b < WORD_LIMIT
    ensures r.inodes.Keys == s.inodes.Keys && r.free == s.free && r.unused == s.unused
    ensures forall j | j in s.inodes :: r.inodes[j].blocks == s.inodes[j].blocks && r.inodes[j].size == s.inodes[j].size
    ensures forall x: nat | !(InBlock(slot) && x == At(s, Holder(slot))) :: r.Block(x) == s.Block(x)
  {
    var node := s.inodes[slot.ino];
    match slot
    case Direct(ino, i) => s.(inodes := s.inodes[ino := node.(direct := node.direct[i := b])])
    case Indirect(ino) => s.(inodes := s.inodes[ino := node.(indirect := b)])
    case Double(ino) => s.(inodes := s.inodes[ino := node.(double := b)])
    case _ =>
      var home := At(s, Holder(slot));
      s.(disk := s.disk[home := SetWord(s.Block(home), Offset(slot), b)])
  }

  /** A new index block comes empty, and is not the block it is recorded in. */
  predicate NewIndex(s: Fs, slot: Slot, b: nat) {
    IsIndex(slot) ==> At(s, slot) == 0 && s.Block(b) == ZeroBytes() && (InBlock(slot) ==> b != At(s, Holder(slot)))
  }

  /** Only `slot` changes: an index block is recorded in one place. */
  lemma PutAt(s: Fs, slot: Slot, b: nat, other: Slot)
    requires Injective(s) && Placed(s, slot) && b < WORD_LIMIT && NewIndex(s, slot, b)
    ensures At(Put(s, slot, b), other) == if other == slot then b else At(s, other)
    decreases other.Deep?, InBlock(other)
  {
    if InBlock(other) {
      PutAt(s, slot, b, Holder(other));
      PutWord(s, slot, b, other);
    } else {
      hide WordAt, SetWord, ZeroBytes;
    }
  }

  lemma PutWord(s: Fs, slot: Slot, b: nat, other: Slot)
    requires Injective(s) && Placed(s, slot) && b < WORD_LIMIT && NewIndex(s, slot, b) && InBlock(other)
    requires At(Put(s, slot, b), Holder(other)) == if Holder(other) == slot then b else At(s, Holder(other))
    ensures At(Put(s, slot, b), other) == if other == slot then b else At(s, other)
  {
    var r := Put(s, slot, b);
    InBlockAt(s, other);
    InBlockAt(r, other);
    if Offset(other) < NENTRY {
      if Holder(other) == slot {
        ZeroWord(Offset(other));
      } else if InBlock(slot) && At(s, Holder(other)) == At(s, Holder(slot)) {
        SameHolder(slot, other);
        SetWordAt(s.Block(At(s, Holder(slot))), Offset(slot), b, Offset(other));
      }
    }
    hide At, WordAt, SetWord;
  }

  lemma SameHolder(a: Slot, b: Slot)
    requires InBlock(a) && InBlock(b) && Holder(a) == Holder(b)
    ensures a == b <==> Offset(a) == Offset(b)
  {}

  lemma ZeroWord(i: nat)
    requires i < NENTRY
    ensures WordAt(ZeroBytes(), i) == 0
  {}

  lemma OwnedInjective(s: Fs, reserved: set<nat>)
    requires Owned(s, reserved)
    ensures Injective(s)
  {}

  lemma OwnedNotFree(s: Fs, reserved: set<nat>, slot: Slot)
    requires Owned(s, reserved)
    ensures At(s, slot) < |s.free| && !s.free[At(s, slot)]
  {
    hide At;
    assert At(s, slot) != 0 ==> IsOwned(s, At(s, slot));
  }

  lemma OwnedAssign(s: Fs, r: Fs, reserved: set<nat>, slot: Slot, b: nat)
    requires Owned(s, reserved) && At(s, slot) == 0 && b < |s.free| && s.free[b] && r.free == s.free[b := false]
    requires forall o :: At(r, o) == if o == slot then b else At(s, o)
    ensures Owned(r, reserved) && b != 0 && !IsOwned(s, b)
  {
    hide At;
    assert b != 0 && !IsOwned(s, b);
    forall x: nat | x < |r.free| ensures !r.free[x] <==> x in reserved || IsOwned(r, x) {
      if IsOwned(s, x) {
        var o :| At(s, o) == x && x != 0;
        assert At(r, o) == x;
      }
      if x == b {
        assert At(r, slot) == b;
      }
      if IsOwned(r, x) && x != b {
        var o :| At(r, o) == x && x != 0;
        assert At(s, o) == x;
      }
    }
    forall o ensures At(s, o) != b {
      OwnedNotFree(s, reserved, o);
    }
  }

  lemma OwnedRelease(s: Fs, r: Fs, reserved: set<nat>, slot: Slot, b: nat)
    requires Owned(s, reserved) && At(s, slot) == b != 0 && b < |s.free| && r.free == s.free[b := true]
    requires forall o :: At(r, o) == if o == slot then 0 else At(s, o)
    ensures Owned(r, reserved) && !s.free[b]
  {
    hide At;
    assert IsOwned(s, b);
    assert At(s, slot) !in reserved;
    forall x: nat | x < |r.free| ensures !r.free[x] <==> x in reserved || IsOwned(r, x) {
      if IsOwned(s, x) && x != b {
        var o :| At(s, o) == x && x != 0;
        assert At(r, o) == x;
      }
      if IsOwned(r, x) {
        var o :| At(r, o) == x && x != 0;
        assert At(s, o) == x && o != slot;
      }
    }
  }

  ghost predicate Shapes(s: Fs) { forall ino | ino in s.inodes :: ShapeOk(s, ino) }

  /** Clearing a free block touches no index block that is in use. */
  lemma TakeAt(s: Fs, reserved: set<nat>, b: nat, slot: Slot)
    requires Owned(s, reserved) && b < |s.free| && s.free[b] && s.unused > 0
    ensures At(Take(s, b), slot) == At(s, slot)
    decreases slot.Deep?, InBlock(slot)
  {
    if InBlock(slot) {
      TakeAt(s, reserved, b, Holder(slot));
      InBlockAt(s, slot);
      InBlockAt(Take(s, b), slot);
      OwnedNotFree(s, reserved, Holder(slot));
      hide At;
    } else {
      hide Word;
    }
  }

  lemma TakeShapes(s: Fs, b: nat)
    requires Shapes(s) && b < |s.free| && s.unused > 0
    ensures Shapes(Take(s, b))
  {
    forall ino | ino in s.inodes ensures ShapeOk(Take(s, b), ino) {
      assert ShapeOk(s, ino);
    }
  }

  lemma PutShapes(s: Fs, slot: Slot, b: nat)
    requires Shapes(s) && Placed(s, slot) && b < WORD_LIMIT
    ensures Shapes(Put(s, slot, b))
  {
    forall ino | ino in s.inodes ensures ShapeOk(Put(s, slot, b), ino) {
      assert ShapeOk(s, ino);
    }
  }

  /** A free slot that can be filled */
  predicate Fillable(s: Fs, slot: Slot) {
    Placed(s, slot) && At(s, slot) == 0
  }

  /** Taking block b from the freemap and recording it in a slot that was empty */
  function Assign(s: Fs, slot: Slot, b: nat): Fs
    requires b < |s.free| <= WORD_LIMIT && s.unused > 0 && Placed(s, slot) && !slot.Deep?
  {
    Put(Take(s, b), slot, b)
  }

  /** Only the block taken and an index block written to change on the disk. */
  ghost predicate DiskKept(s: Fs, r: Fs, slot: Slot, b: nat) {
    forall x: nat | x != b && !(InBlock(slot) && x == At(s, Holder(slot))) :: r.Block(x) == s.Block(x)
  }

  lemma AssignFacts(s: Fs, reserved: set<nat>, slot: Slot, b: nat)
    requires Owned(s, reserved) && Shapes(s) && s.unused == CountTrue(s.free) && b < |s.free| && s.free[b]
    requires Fillable(s, slot) && !slot.Deep?
    ensures s.unused > 0
    ensures var r := Assign(s, slot, b);
            && Owned(r, reserved) && Shapes(r) && r.unused == CountTrue(r.free) == s.unused - 1 && b != 0
            && !IsOwned(s, b)
            && r.inodes.Keys == s.inodes.Keys && (forall o :: At(r, o) == if o == slot then b else At(s, o))
            && DiskKept(s, r, slot, b) && r.Block(b) == ZeroBytes()
  {
    hide At, Owned, Put, ShapeOk;
    FreeBlockFacts(s, reserved, slot, b);
    CountUpdate(s.free, b, false);
    TakeShapes(s, b);
    AssignAt(s, reserved, slot, b);
    PutShapes(Take(s, b), slot, b);
    OwnedAssign(s, Assign(s, slot, b), reserved, slot, b);
  }

  lemma FreeBlockFacts(s: Fs, reserved: set<nat>, slot: Slot, b: nat)
    requires Owned(s, reserved) && b < |s.free| && s.free[b]
    ensures |s.free| <= WORD_LIMIT && (InBlock(slot) ==> At(s, Holder(slot)) != b)
  {
    hide At, IsOwned;
    if InBlock(slot) {
      OwnedNotFree(s, reserved, Holder(slot));
    }
  }

  lemma AssignAt(s: Fs, reserved: set<nat>, slot: Slot, b: nat)
    requires Owned(s, reserved) && b < |s.free| && s.free[b] && s.unused > 0 && Fillable(s, slot)
    requires !slot.Deep?
    ensures forall o :: At(Take(s, b), o) == At(s, o)
    ensures forall o :: At(Assign(s, slot, b), o) == if o == slot then b else At(s, o)
  {
    hide Put, At, IsOwned;
    var t := Take(s, b);
    forall o ensures At(t, o) == At(s, o) {
      TakeAt(s, reserved, b, o);
    }
    FreeBlockFacts(s, reserved, slot, b);
    forall o ensures At(Assign(s, slot, b), o) == if o == slot then b else At(s, o) {
      PutAt(t, slot, b, o);
    }
  }

  /** Emptying a slot and giving its block back */
  function Release(s: Fs, slot: Slot): Fs
    requires Placed(s, slot) && At(s, slot) < |s.free|
  {
    Give(Put(s, slot, 0), At(s, slot))
  }

  lemma ReleaseFacts(s: Fs, reserved: set<nat>, slot: Slot)
    requires Owned(s, reserved) && Shapes(s) && s.unused == CountTrue(s.free)
    requires Placed(s, slot) && At(s, slot) != 0 && !IsIndex(slot)
    ensures At(s, slot) < |s.free|
    ensures var r := Release(s, slot);
            && Owned(r, reserved) && Shapes(r) && r.unused == CountTrue(r.free) == s.unused + 1
            && r.free == s.free[At(s, slot) := true]
            && r.inodes.Keys == s.inodes.Keys && (forall o :: At(r, o) == if o == slot then 0 else At(s, o))
            && DiskKept(s, r, slot, 0)
  {
    hide At, Owned, Put;
    PutShapes(s, slot, 0);
    OwnedNotFree(s, reserved, slot);
    OwnedInjective(s, reserved);
    var b := At(s, slot);
    var p, r := Put(s, slot, 0), Release(s, slot);
    forall o ensures At(r, o) == if o == slot then 0 else At(s, o) {
      PutAt(s, slot, 0, o);
      GiveAt(p, b, o);
    }
    CountUpdate(s.free, b, true);
    OwnedRelease(s, r, reserved, slot, b);
    GiveShapes(p, b);
  }

  lemma GiveAt(s: Fs, b: nat, o: Slot)
    requires b < |s.free|
    ensures At(Give(s, b), o) == At(s, o)
  {}

  lemma GiveShapes(s: Fs, b: nat)
    requires Shapes(s) && b < |s.free|
    ensures Shapes(Give(s, b))
  {
    forall ino | ino in s.inodes ensures ShapeOk(Give(s, b), ino) {
      assert ShapeOk(s, ino);
    }
  }

  // --- files ---

  /** The blocks of a file in order */
  function FileBlocks(s: Fs, ino: nat): (f: seq<nat>)
    requires ino in s.inodes
    ensures |f| == s.inodes[ino].blocks && forall i | 0 <= i < |f| :: f[i] == At(s, FileSlot(ino, i))
  {
    seq(s.inodes[ino].blocks, i requires 0 <= i => At(s, FileSlot(ino, i)))
  }

  function SetBlocks(s: Fs, ino: nat, n: nat): Fs
    requires ino in s.inodes
  {
    s.(inodes := s.inodes[ino := s.inodes[ino].(blocks := n)])
  }

  /** How many blocks it takes to append one to a file */
  function Need(s: Fs, ino: nat): nat
    requires ino in s.inodes
  {
    if s.inodes[ino].blocks >= NDIRECT && s.inodes[ino].indirect == 0 then 2 else 1
  }

  lemma SetBlocksFacts(s: Fs, reserved: set<nat>, ino: nat, n: nat)
    requires Owned(s, reserved) && Shapes(s) && ino in s.inodes && n <= MAXFILE
    ensures Owned(SetBlocks(s, ino, n), reserved) && Shapes(SetBlocks(s, ino, n))
    ensures forall o :: At(SetBlocks(s, ino, n), o) == At(s, o)
  {
    var r := SetBlocks(s, ino, n);
    forall o ensures At(r, o) == At(s, o) {}
    hide At;
    forall x: nat ensures IsOwned(r, x) <==> IsOwned(s, x) {
      if IsOwned(s, x) {
        var o :| At(s, o) == x && x != 0;
        assert At(r, o) == x;
      }
      if IsOwned(r, x) {
        var o :| At(r, o) == x && x != 0;
        assert At(s, o) == x;
      }
    }
    forall j | j in r.inodes ensures ShapeOk(r, j) {
      assert ShapeOk(s, j);
    }
  }

  /** The file slot of a block index is a slot of that file, and different indices have different slots. */
  lemma FileSlotFacts(ino: nat, i: nat, j: nat, other: nat)
    ensures FileSlot(ino, i).ino == ino && (FileSlot(ino, i) == FileSlot(other, j) <==> ino == other && i == j)
    ensures !IsIndex(FileSlot(ino, i))
  {}

  /** Recording a block at the end of the file, once its index block is there */
  function Append(s: Fs, ino: nat, b: nat): Fs
    requires ino in s.inodes && s.inodes[ino].blocks < MAXBLOCKS && b < |s.free| <= WORD_LIMIT && s.unused > 0
    requires Placed(s, FileSlot(ino, s.inodes[ino].blocks))
  {
    SetBlocks(Assign(s, FileSlot(ino, s.inodes[ino].blocks), b), ino, s.inodes[ino].blocks + 1)
  }

  /** Every byte of every file is on the disk as before. */
  ghost predicate SameBytes(s: Fs, r: Fs) {
    forall j, i | j in s.inodes && 0 <= i < s.inodes[j].blocks ::
      r.Block(FileBlocks(s, j)[i]) == s.Block(FileBlocks(s, j)[i])
  }

  /** A block that no slot holds and an index block are no file's data, so writing to them changes no file. */
  lemma KeptBytes(s: Fs, reserved: set<nat>, r: Fs, slot: Slot, b: nat)
    requires Owned(s, reserved) && (forall j | j in s.inodes :: ShapeOk(s, j) && Packed(s, j))
    requires DiskKept(s, r, slot, b) && !IsOwned(s, b)
    ensures SameBytes(s, r)
  {
    hide At;
    forall j, i | j in s.inodes && 0 <= i < s.inodes[j].blocks
      ensures r.Block(FileBlocks(s, j)[i]) == s.Block(FileBlocks(s, j)[i])
    {
      assert ShapeOk(s, j) && Packed(s, j);
      var x := At(s, FileSlot(j, i));
      FileSlotFacts(j, i, 0, slot.ino);
      assert IsOwned(s, x);
    }
  }

  lemma IndirectAt(s: Fs, ino: nat)
    requires ino in s.inodes
    ensures At(s, Indirect(ino)) == s.inodes[ino].indirect
  {}

  /**
    What appending block b does: that file has one more block, zeroed and free before, with an index block if it needs
    one; nobody else's blocks and no bytes change.
    */
  ghost predicate Appended(s: Fs, r: Fs, ino: nat, b: nat)
    requires ino in s.inodes
  {
    && r.inodes.Keys == s.inodes.Keys && FileBlocks(r, ino) == FileBlocks(s, ino) + [b] && r.Block(b) == ZeroBytes()
    && (r.inodes[ino].indirect == 0 <==> s.inodes[ino].indirect == 0 && s.inodes[ino].blocks < NDIRECT)
    && (forall j | j in s.inodes && j != ino :: FileBlocks(r, j) == FileBlocks(s, j))
    && (forall j | j in s.inodes :: r.inodes[j].size == s.inodes[j].size)
    && SameBytes(s, r)
  }

  lemma AppendFacts(s: Fs, reserved: set<nat>, ino: nat, b: nat)
    requires Valid(s, reserved) && ino in s.inodes && s.inodes[ino].blocks < MAXBLOCKS && b < |s.free| && s.free[b]
    requires s.inodes[ino].blocks >= NDIRECT ==> s.inodes[ino].indirect != 0
    ensures s.unused > 0 && |s.free| <= WORD_LIMIT && Placed(s, FileSlot(ino, s.inodes[ino].blocks))
    ensures Valid(Append(s, ino, b), reserved) && Appended(s, Append(s, ino, b), ino, b)
    ensures Append(s, ino, b).unused == s.unused - 1
  {
    hide At, Owned, Put, ShapeOk;
    var n := s.inodes[ino].blocks;
    var slot := FileSlot(ino, n);
    assert Packed(s, ino) && ShapeOk(s, ino);
    IndirectAt(s, ino);
    AssignFacts(s, reserved, slot, b);
    FreeBlockFacts(s, reserved, slot, b);
    var r := Assign(s, slot, b);
    SetBlocksFacts(r, reserved, ino, n + 1);
    var t := Append(s, ino, b);
    KeptBytes(s, reserved, t, slot, b);
    AssignIndirect(s, slot, b);
    hide IsOwned;
    AppendedFacts(s, t, ino, b);
    forall j | j in t.inodes ensures Packed(t, j) {
      AppendPacked(s, t, ino, b, j);
    }
  }

  lemma AssignIndirect(s: Fs, slot: Slot, b: nat)
    requires b < |s.free| <= WORD_LIMIT && s.unused > 0 && Placed(s, slot) && !IsIndex(slot)
    requires !slot.Deep?
    ensures slot.ino in Assign(s, slot, b).inodes
    ensures Assign(s, slot, b).inodes[slot.ino].indirect == s.inodes[slot.ino].indirect
  {}

  lemma AppendedFacts(s: Fs, t: Fs, ino: nat, b: nat)
    requires ino in s.inodes && t.inodes.Keys == s.inodes.Keys && b != 0
    requires forall o :: At(t, o) == if o == FileSlot(ino, s.inodes[ino].blocks) then b else At(s, o)
    requires forall j | j in s.inodes ::
               && t.inodes[j].blocks == s.inodes[j].blocks + (if j == ino then 1 else 0)
               && t.inodes[j].size == s.inodes[j].size
    requires s.inodes[ino].blocks >= NDIRECT ==> s.inodes[ino].indirect != 0
    requires t.inodes[ino].indirect == s.inodes[ino].indirect && SameBytes(s, t) && t.Block(b) == ZeroBytes()
    ensures Appended(s, t, ino, b)
  {
    hide At, SameBytes, ZeroBytes;
    var n := s.inodes[ino].blocks;
    forall j | j in s.inodes && j != ino ensures FileBlocks(t, j) == FileBlocks(s, j) {
      forall i | 0 <= i < s.inodes[j].blocks ensures FileBlocks(t, j)[i] == FileBlocks(s, j)[i] {
        FileSlotFacts(ino, n, i, j);
      }
    }
    forall i | 0 <= i < n ensures FileBlocks(t, ino)[i] == FileBlocks(s, ino)[i] {
      FileSlotFacts(ino, n, i, ino);
    }
  }

  lemma AppendPacked(s: Fs, t: Fs, ino: nat, b: nat, j: nat)
    requires ino in s.inodes && j in s.inodes && j in t.inodes && Packed(s, j) && b != 0
    requires t.inodes[j].blocks == s.inodes[j].blocks + (if j == ino then 1 else 0)
    requires forall o :: At(t, o) == if o == FileSlot(ino, s.inodes[ino].blocks) then b else At(s, o)
    ensures Packed(t, j)
  {
    hide At;
    forall i: nat | i < MAXFILE ensures At(t, FileSlot(j, i)) != 0 <==> i < t.inodes[j].blocks {
      FileSlotFacts(ino, s.inodes[ino].blocks, i, j);
    }
  }

  /** Same files, block by block, and the same bytes in them */
  ghost predicate SameFiles(s: Fs, r: Fs) {
    && r.inodes.Keys == s.inodes.Keys && SameBytes(s, r)
    && (forall j | j in s.inodes :: FileBlocks(r, j) == FileBlocks(s, j) && r.inodes[j].size == s.inodes[j].size)
  }

  lemma SameFilesFacts(s: Fs, t: Fs)
    requires t.inodes.Keys == s.inodes.Keys && SameBytes(s, t)
    requires forall j, i: nat :: At(t, FileSlot(j, i)) == At(s, FileSlot(j, i))
    requires forall j | j in s.inodes ::
               t.inodes[j].blocks == s.inodes[j].blocks && t.inodes[j].size == s.inodes[j].size
    ensures SameFiles(s, t) && forall j | j in s.inodes && Packed(s, j) :: Packed(t, j)
  {
    hide At, SameBytes;
    forall j | j in s.inodes ensures FileBlocks(t, j) == FileBlocks(s, j) {
      forall i | 0 <= i < s.inodes[j].blocks ensures FileBlocks(t, j)[i] == FileBlocks(s, j)[i] {}
    }
  }

  predicate WasFree(s: Fs, b: nat) { b < |s.free| && s.free[b] }

  /** Giving a file an index block, as sfs_bmap_get_sub_nolock does, changes no file. */
  lemma AddIndexFacts(s: Fs, reserved: set<nat>, h: Slot, b: nat)
    requires Valid(s, reserved) && IsIndex(h) && Fillable(s, h) && b < |s.free| && s.free[b]
    ensures s.unused > 0 && |s.free| <= WORD_LIMIT
    ensures var r := Assign(s, h, b);
            && Valid(r, reserved) && SameFiles(s, r) && r.unused == s.unused - 1 && b != 0
            && (forall o :: At(r, o) == if o == h then b else At(s, o))
  {
    hide At, Owned, ShapeOk;
    AssignFacts(s, reserved, h, b);
    FreeBlockFacts(s, reserved, h, b);
    var r := Assign(s, h, b);
    KeptBytes(s, reserved, r, h, b);
    hide IsOwned;
    forall j, i: nat ensures At(r, FileSlot(j, i)) == At(s, FileSlot(j, i)) {
      FileSlotFacts(j, i, 0, h.ino);
    }
    SameFilesFacts(s, r);
  }

  /** A file without an index block can be given one. */
  lemma IndexFillable(s: Fs, reserved: set<nat>, ino: nat)
    requires Valid(s, reserved) && ino in s.inodes && s.inodes[ino].indirect == 0
    ensures Fillable(s, Indirect(ino))
  {
    assert ShapeOk(s, ino);
  }

  /** A block taken and given back again: the freemap, the count and every file are as before. */
  lemma TakeGive(s: Fs, reserved: set<nat>, b: nat)
    requires Valid(s, reserved) && b < |s.free| && s.free[b]
    ensures s.unused > 0
    ensures var r := Give(Take(s, b), b);
            Valid(r, reserved) && SameFiles(s, r) && r.free == s.free && r.unused == s.unused && r.inodes == s.inodes
  {
    CountUpdate(s.free, b, false);
    hide At, ShapeOk;
    assert !IsOwned(s, b);
    var t := Take(s, b);
    TakeShapes(s, b);
    GiveShapes(t, b);
    var r := Give(t, b);
    forall o ensures At(r, o) == At(s, o) {
      TakeAt(s, reserved, b, o);
      GiveAt(t, b, o);
    }
    SameOwned(s, r, reserved);
    forall j | j in s.inodes ensures SameBytes(s, r) {
      KeptBytes(s, reserved, r, Indirect(j), b);
    }
    hide IsOwned;
    SameFilesFacts(s, r);
  }

  lemma SameOwned(s: Fs, r: Fs, reserved: set<nat>)
    requires Owned(s, reserved) && r.free == s.free && forall o :: At(r, o) == At(s, o)
    ensures Owned(r, reserved)
  {
    hide At;
    forall x: nat ensures IsOwned(r, x) <==> IsOwned(s, x) {
      if IsOwned(s, x) {
        var o :| At(s, o) == x && x != 0;
        assert At(r, o) == x;
      }
      if IsOwned(r, x) {
        var o :| At(r, o) == x && x != 0;
        assert At(s, o) == x;
      }
    }
  }

  /** sfs_bmap_truncate_nolock */
  function Shrunk(s: Fs, ino: nat): Fs
    requires ino in s.inodes && s.inodes[ino].blocks > 0
    requires var slot := FileSlot(ino, s.inodes[ino].blocks - 1); Placed(s, slot) && At(s, slot) < |s.free|
  {
    SetBlocks(Release(s, FileSlot(ino, s.inodes[ino].blocks - 1)), ino, s.inodes[ino].blocks - 1)
  }

  /** The last block of a file, recorded, in use and reachable */
  lemma LastBlock(s: Fs, reserved: set<nat>, ino: nat)
    requires Valid(s, reserved) && ino in s.inodes && 0 < s.inodes[ino].blocks <= MAXBLOCKS
    ensures var slot := FileSlot(ino, s.inodes[ino].blocks - 1);
            Placed(s, slot) && 0 != At(s, slot) < |s.free| && !s.free[At(s, slot)]
  {
    hide IsOwned;
    assert Packed(s, ino) && ShapeOk(s, ino);
    OwnedNotFree(s, reserved, FileSlot(ino, s.inodes[ino].blocks - 1));
  }

  lemma ShrunkFacts(s: Fs, reserved: set<nat>, ino: nat)
    requires Valid(s, reserved) && ino in s.inodes && 0 < s.inodes[ino].blocks <= MAXBLOCKS
    requires var slot := FileSlot(ino, s.inodes[ino].blocks - 1); Placed(s, slot) && 0 != At(s, slot) < |s.free|
    ensures var r, n := Shrunk(s, ino), s.inodes[ino].blocks - 1;
            && Valid(r, reserved) && r.unused == s.unused + 1 && SameBytes(s, r) && r.inodes.Keys == s.inodes.Keys
            && FileBlocks(r, ino) == FileBlocks(s, ino)[..n] && r.free == s.free[FileBlocks(s, ino)[n] := true]
            && (forall j | j in s.inodes && j != ino :: FileBlocks(r, j) == FileBlocks(s, j))
            && (forall j | j in s.inodes :: r.inodes[j].size == s.inodes[j].size)
  {
    hide At, Owned, IsOwned, Put, ShapeOk, Packed, CountTrue, FileBlocks, Give, SameBytes;
    var n := s.inodes[ino].blocks - 1;
    var slot := FileSlot(ino, n);
    ReleaseFacts(s, reserved, slot);
    var t := Release(s, slot);
    SetBlocksFacts(t, reserved, ino, n);
    var r := Shrunk(s, ino);
    NobodyOwnsZero(s);
    KeptBytes(s, reserved, r, slot, 0);
    ShrunkFiles(s, r, ino);
  }

  lemma NobodyOwnsZero(s: Fs)
    ensures !IsOwned(s, 0)
  {}

  lemma ShrunkFiles(s: Fs, r: Fs, ino: nat)
    requires ino in s.inodes && s.inodes[ino].blocks > 0 && r.inodes.Keys == s.inodes.Keys
    requires forall o :: At(r, o) == if o == FileSlot(ino, s.inodes[ino].blocks - 1) then 0 else At(s, o)
    requires forall j | j in s.inodes :: r.inodes[j].blocks == s.inodes[j].blocks - (if j == ino then 1 else 0)
    ensures forall j | j in s.inodes && j != ino :: FileBlocks(r, j) == FileBlocks(s, j)
    ensures FileBlocks(r, ino) == FileBlocks(s, ino)[..s.inodes[ino].blocks - 1]
    ensures forall j | j in s.inodes && Packed(s, j) :: Packed(r, j)
  {
    hide At;
    var n := s.inodes[ino].blocks - 1;
    forall j, i: nat | j in s.inodes && (j != ino || i != n) ensures At(r, FileSlot(j, i)) == At(s, FileSlot(j, i)) {
      FileSlotFacts(ino, n, i, j);
    }
    forall j | j in s.inodes && j != ino ensures FileBlocks(r, j) == FileBlocks(s, j) {
      forall i | 0 <= i < s.inodes[j].blocks ensures FileBlocks(r, j)[i] == FileBlocks(s, j)[i] {}
    }
    forall i | 0 <= i < n ensures FileBlocks(r, ino)[i] == FileBlocks(s, ino)[i] {}
  }
}

/** The block-map operations of kern/fs/sfs/sfs_inode.c. */
module Sfs {
  import opened Counting
  import opened Bits
  import opened BitmapModel
  import opened DiskBlocks
  import opened SfsModel

  /** ROUNDUP_DIV(len, SFS_BLKSIZE) */
  function BlocksFor(len: nat): nat { (len + BLKSIZE - 1) / BLKSIZE }

  /** A file has as many blocks as its size takes. */
  predicate SizeOk(s: Fs, ino: nat)
    requires ino in s.inodes
  {
    s.inodes[ino].blocks == BlocksFor(s.inodes[ino].size)
  }

  /** How many blocks it takes to grow a file to n blocks, its index block included */
  function Cost(s: Fs, ino: nat, n: nat): nat
    requires ino in s.inodes
  {
    var node := s.inodes[ino];
    if n <= node.blocks then 0 else n - node.blocks + (if n > NDIRECT && node.indirect == 0 then 1 else 0)
  }

  /** Nothing has changed but the blocks of one file. */
  ghost predicate Kept(s: Fs, r: Fs, ino: nat) {
    && r.inodes.Keys == s.inodes.Keys && ino in s.inodes && r.inodes[ino].size == s.inodes[ino].size
    && |FileBlocks(s, ino)| == s.inodes[ino].blocks && |FileBlocks(r, ino)| == r.inodes[ino].blocks
    && forall j | j in s.inodes && j != ino ::
         FileBlocks(r, j) == FileBlocks(s, j) && r.inodes[j].size == s.inodes[j].size
  }

  /** What a block of a file holds: what it held before, or zeros if the file has grown to it */
  ghost predicate BytesKept(s: Fs, r: Fs) {
    && r.inodes.Keys == s.inodes.Keys
    && forall j, i | j in s.inodes && 0 <= i < r.inodes[j].blocks :: BlockKept(s, r, j, i)
  }

  predicate BlockKept(s: Fs, r: Fs, j: nat, i: nat)
    requires j in s.inodes && j in r.inodes && i < r.inodes[j].blocks
  {
    r.Block(FileBlocks(r, j)[i]) == if i < s.inodes[j].blocks then s.Block(FileBlocks(s, j)[i]) else ZeroBytes()
  }

  lemma NothingLost(s: Fs)
    ensures BytesKept(s, s)
  {}

  /** A file has one block more, zeroed, and every byte is as it was. */
  lemma AppendedBytes(s: Fs, t: Fs, r: Fs, ino: nat, b: nat)
    requires BytesKept(s, t) && ino in t.inodes && Appended(t, r, ino, b)
    requires s.inodes[ino].blocks <= t.inodes[ino].blocks
    ensures BytesKept(s, r)
  {
    hide At, ZeroBytes;
    forall j, i | j in s.inodes && 0 <= i < r.inodes[j].blocks ensures BlockKept(s, r, j, i) {
      SizesMatch(t, r, j);
      if i < t.inodes[j].blocks {
        assert BlockKept(s, t, j, i);
        assert FileBlocks(r, j)[i] == FileBlocks(t, j)[i];
      }
    }
  }

  /** No file has more blocks than before, and every byte is as it was. */
  lemma ShrunkBytes(s: Fs, t: Fs, r: Fs)
    requires BytesKept(s, t) && r.inodes.Keys == t.inodes.Keys && SameBytes(t, r)
    requires forall j | j in t.inodes :: FileBlocks(r, j) <= FileBlocks(t, j)
    ensures BytesKept(s, r)
  {
    hide At, ZeroBytes;
    forall j, i | j in s.inodes && 0 <= i < r.inodes[j].blocks ensures BlockKept(s, r, j, i) {
      SizesMatch(t, r, j);
      assert BlockKept(s, t, j, i);
      assert FileBlocks(r, j)[i] == FileBlocks(t, j)[i];
    }
  }

  lemma SizesMatch(t: Fs, r: Fs, j: nat)
    requires j in t.inodes && j in r.inodes
    ensures |FileBlocks(t, j)| == t.inodes[j].blocks && |FileBlocks(r, j)| == r.inodes[j].blocks
  {}

  lemma AppendedKept(s: Fs, t: Fs, r: Fs, ino: nat, b: nat)
    requires ino in s.inodes && Kept(s, t, ino) && ino in t.inodes && Appended(t, r, ino, b)
    requires FileBlocks(s, ino) <= FileBlocks(t, ino)
    ensures Kept(s, r, ino) && FileBlocks(s, ino) <= FileBlocks(r, ino)
    ensures r.inodes[ino].blocks == t.inodes[ino].blocks + 1
    ensures forall n: nat | n > t.inodes[ino].blocks :: Cost(t, ino, n) == Need(t, ino) + Cost(r, ino, n)
  {
    hide At, IsOwned;
    assert |FileBlocks(r, ino)| == |FileBlocks(t, ino)| + 1;
  }

  lemma SameKept(s: Fs, t: Fs, r: Fs, ino: nat)
    requires ino in s.inodes && Kept(s, t, ino) && ino in t.inodes && SameFiles(t, r)
    requires FileBlocks(s, ino) <= FileBlocks(t, ino)
    ensures Kept(s, r, ino) && FileBlocks(s, ino) <= FileBlocks(r, ino) && r.inodes[ino].blocks == t.inodes[ino].blocks
  {
    hide At, IsOwned;
    assert |FileBlocks(r, ino)| == |FileBlocks(t, ino)|;
  }

  lemma ShrunkKept(s: Fs, t: Fs, r: Fs, ino: nat)
    requires ino in s.inodes && Kept(s, t, ino) && ino in t.inodes && t.inodes[ino].blocks > 0
    requires FileBlocks(t, ino) <= FileBlocks(s, ino)
    requires r.inodes.Keys == t.inodes.Keys && FileBlocks(r, ino) == FileBlocks(t, ino)[..t.inodes[ino].blocks - 1]
    requires forall j | j in r.inodes && j != ino :: FileBlocks(r, j) == FileBlocks(t, j)
    requires forall j | j in r.inodes :: r.inodes[j].size == t.inodes[j].size
    ensures Kept(s, r, ino) && FileBlocks(r, ino) <= FileBlocks(s, ino)
    ensures r.inodes[ino].blocks == t.inodes[ino].blocks - 1
  {
    hide At;
    assert |FileBlocks(r, ino)| == |FileBlocks(t, ino)| - 1;
  }

  lemma SizedFacts(s: Fs, reserved: set<nat>, ino: nat, len: nat)
    requires Valid(s, reserved) && ino in s.inodes
    ensures var r := s.(inodes := s.inodes[ino := s.inodes[ino].(size := len)]);
            Valid(r, reserved) && forall j | j in r.inodes :: FileBlocks(r, j) == FileBlocks(s, j)
  {
    var r := s.(inodes := s.inodes[ino := s.inodes[ino].(size := len)]);
    forall o ensures At(r, o) == At(s, o) {}
    hide At, IsOwned;
    SameOwned(s, r, reserved);
    forall j | j in r.inodes ensures ShapeOk(r, j) && Packed(r, j) && FileBlocks(r, j) == FileBlocks(s, j) {
      assert ShapeOk(s, j) && Packed(s, j);
    }
  }

  class FileSystem {
    /** fs.free is what the freemap holds */
    var fs: Fs
    const freemap: Bitmap
    /** The blocks that are nobody's data: superblock, freemap, inodes */
    ghost const reserved: set<nat>

    ghost predicate Mapped()
      reads this`fs, freemap.map_
    {
      freemap.Valid() && freemap.Holds(fs.free)
    }

    ghost predicate Ok()
      reads this`fs, freemap.map_
    {
      Mapped() && Valid(fs, reserved)
    }

    /** A file system as it was found on the disk; sfs_init_freemap reads the words of the freemap */
    constructor (fs: Fs, ghost reserved: set<nat>)
      requires Valid(fs, reserved)
      ensures Ok() && this.fs == fs && this.reserved == reserved && fresh(freemap.map_)
    {
      assert 0 in reserved;
      var m := new Bitmap(|fs.free|);
      m.Fill(fs.free);
      this.fs, this.freemap, this.reserved := fs, m, reserved;
    }

    /** sfs_block_alloc: the lowest free block, zeroed */
    method BlockAlloc() returns (b: Option<nat>)
      requires Mapped() && fs.unused == CountTrue(fs.free)
      modifies this`fs, freemap.map_
      ensures Mapped() && (b.None? <==> old(fs).unused == 0)
      ensures b.None? ==> fs == old(fs)
      ensures b.Some? ==> FirstSet(old(fs).free, b.value) && fs == Take(old(fs), b.value)
    {
      hide CountTrue, ZeroBytes;
      CountZero(fs.free);
      b := freemap.Alloc();
      if b.Some? {
        fs := Take(fs, b.value);
      }
    }

    /** sfs_block_free */
    method BlockFree(b: nat)
      requires Mapped() && b < |fs.free| && !fs.free[b]
      modifies this`fs, freemap.map_
      ensures Mapped() && fs == Give(old(fs), b)
    {
      freemap.Free(b);
      fs := Give(fs, b);
    }

    /** sfs_bmap_get_nolock without create: the block recorded for that index, or 0; nothing where it panics */
    method Lookup(ino: nat, index: nat) returns (b: Option<nat>)
      requires Ok() && ino in fs.inodes
      ensures b.Some? <==> index < MAXBLOCKS
      ensures b.Some? ==> b.value == At(fs, FileSlot(ino, index)) && (b.value != 0 <==> index < fs.inodes[ino].blocks)
      ensures b.Some? && b.value != 0 ==>
                b.value == FileBlocks(fs, ino)[index] && b.value < |fs.free| && !fs.free[b.value]
    {
      hide Owned, IsOwned;
      assert ShapeOk(fs, ino) && Packed(fs, ino);
      OwnedNotFree(fs, reserved, FileSlot(ino, index));
      var node := fs.inodes[ino];
      if index < NDIRECT {
        b := Some(node.direct[index]);
      } else if index < MAXBLOCKS {
        b := Some(if node.indirect != 0 then WordAt(fs.Block(node.indirect), index - NDIRECT) else 0);
      } else {
        b := None;
      }
    }

    /** sfs_bmap_get_nolock creating a direct block at the end of the file */
    method ExtendDirect(ino: nat) returns (b: Option<nat>)
      requires Ok() && ino in fs.inodes && fs.inodes[ino].blocks < NDIRECT
      modifies this`fs, freemap.map_
      ensures Ok() && (b.None? <==> old(fs).unused == 0) && (b.None? ==> fs == old(fs))
      ensures b.Some? ==>
                WasFree(old(fs), b.value) && Appended(old(fs), fs, ino, b.value) && fs.unused == old(fs).unused - 1
    {
      hide At, Owned, Packed, CountTrue, ZeroBytes;
      ghost var s := fs;
      b := BlockAlloc();
      if b.Some? {
        AppendFacts(s, reserved, ino, b.value);
        var n := fs.inodes[ino].blocks;
        fs := Put(fs, Direct(ino, n), b.value);
        fs := SetBlocks(fs, ino, n + 1);
        assert fs == Append(s, ino, b.value);
      }
    }

    /** sfs_bmap_get_sub_nolock creating an entry at the end of a file that has its index block */
    method ExtendEntry(ino: nat) returns (b: Option<nat>)
      requires Ok() && ino in fs.inodes && NDIRECT <= fs.inodes[ino].blocks < MAXBLOCKS && fs.inodes[ino].indirect != 0
      modifies this`fs, freemap.map_
      ensures Ok() && (b.None? <==> old(fs).unused == 0) && (b.None? ==> fs == old(fs))
      ensures b.Some? ==>
                WasFree(old(fs), b.value) && Appended(old(fs), fs, ino, b.value) && fs.unused == old(fs).unused - 1
    {
      hide At, Owned, Packed, CountTrue, ZeroBytes;
      ghost var s := fs;
      b := BlockAlloc();
      if b.Some? {
        AppendFacts(s, reserved, ino, b.value);
        var n := fs.inodes[ino].blocks;
        IndirectAt(fs, ino);
        fs := Put(fs, Entry(ino, n - NDIRECT), b.value);
        fs := SetBlocks(fs, ino, n + 1);
        assert fs == Append(s, ino, b.value);
      }
    }

    /** The same for a file without an index block: both blocks or neither */
    method ExtendFirstEntry(ino: nat) returns (b: Option<nat>)
      requires Ok() && ino in fs.inodes && NDIRECT <= fs.inodes[ino].blocks < MAXBLOCKS && fs.inodes[ino].indirect == 0
      modifies this`fs, freemap.map_
      ensures Ok() && (b.None? <==> old(fs).unused < 2)
      ensures b.None? ==> SameFiles(old(fs), fs) && fs.inodes == old(fs).inodes
      ensures b.None? ==> fs.free == old(fs).free && fs.unused == old(fs).unused
      ensures b.Some? ==>
                WasFree(old(fs), b.value) && Appended(old(fs), fs, ino, b.value) && fs.unused == old(fs).unused - 2
    {
      hide At, Owned, ShapeOk, Packed, CountTrue, ZeroBytes, IsOwned, SameFiles, Appended;
      ghost var s := fs;
      SameFilesSelf(s);
      var ent := BlockAlloc();
      if ent.None? {
        return None;
      }
      var e := ent.value;
      IndexFillable(s, reserved, ino);
      AddIndexFacts(s, reserved, Indirect(ino), e);
      TakeGive(s, reserved, e);
      ghost var t := Assign(s, Indirect(ino), e);
      b := SecondAlloc(s, e);
      if b.None? {
        BlockFree(e);
        return;
      }
      AppendFacts(t, reserved, ino, b.value);
      LinkFirst(ino, e, b.value, s, t);
      AppendedAfter(s, t, fs, ino, b.value);
    }

    /** sfs_block_alloc of the data block, when the index block e has just been taken */
    method SecondAlloc(ghost s: Fs, e: nat) returns (b: Option<nat>)
      requires Mapped()
      requires e < |s.free| && s.free[e] && s.unused > 0 && fs == Take(s, e) && s.unused == CountTrue(s.free)
      modifies this`fs, freemap.map_
      ensures Mapped() && (b.None? <==> s.unused == 1)
      ensures b.None? ==> fs == old(fs)
      ensures b.Some? ==>
                b.value < |s.free| && b.value != e && s.free[b.value] && s.unused > 1 && fs == Take(Take(s, e), b.value)
    {
      CountUpdate(s.free, e, false);
      b := BlockAlloc();
    }

    /** Writing the entry into the new index block and recording that in the inode */
    method LinkFirst(ino: nat, e: nat, b: nat, ghost s: Fs, ghost t: Fs)
      requires ino in s.inodes && e < |s.free| <= WORD_LIMIT && b < |s.free| && b != e && s.unused > 1
      requires fs == Take(Take(s, e), b)
      requires NDIRECT <= s.inodes[ino].blocks < MAXBLOCKS && Placed(s, Indirect(ino))
      requires t == Assign(s, Indirect(ino), e)
      requires ino in t.inodes && t.unused > 0 && b < |t.free| && t.inodes[ino].blocks == s.inodes[ino].blocks
      requires Placed(t, FileSlot(ino, t.inodes[ino].blocks)) && |t.free| <= WORD_LIMIT
      modifies this`fs
      ensures fs == Append(t, ino, b)
    {
      var n := fs.inodes[ino].blocks;
      fs := fs.(disk := fs.disk[e := SetWord(fs.Block(e), n - NDIRECT, b)]);
      fs := fs.(inodes := fs.inodes[ino := fs.inodes[ino].(indirect := e)]);
      fs := SetBlocks(fs, ino, n + 1);
    }

    lemma SameFilesSelf(s: Fs)
      ensures SameFiles(s, s)
    {}

    lemma AppendedAfter(s: Fs, t: Fs, r: Fs, ino: nat, b: nat)
      requires ino in s.inodes && SameFiles(s, t) && ino in t.inodes && Appended(t, r, ino, b)
      requires s.inodes[ino].blocks >= NDIRECT && t.inodes[ino].indirect != 0
      requires t.inodes[ino].blocks == s.inodes[ino].blocks
      ensures Appended(s, r, ino, b)
    {
      hide At;
      forall j, i | j in s.inodes && 0 <= i < s.inodes[j].blocks
        ensures r.Block(FileBlocks(s, j)[i]) == s.Block(FileBlocks(s, j)[i])
      {
        assert FileBlocks(t, j) == FileBlocks(s, j) && |FileBlocks(t, j)| == t.inodes[j].blocks;
      }
    }

    /** sfs_bmap_load_nolock: the block at an index of the file, appending one when the index is just past its end */
    method BmapLoad(ino: nat, index: nat) returns (b: Option<nat>)
      requires Ok() && ino in fs.inodes && index <= fs.inodes[ino].blocks && index < MAXBLOCKS
      modifies this`fs, freemap.map_
      ensures Ok() && ino in fs.inodes
      ensures index < old(fs).inodes[ino].blocks ==> fs == old(fs) && b == Some(FileBlocks(fs, ino)[index])
      ensures index == old(fs).inodes[ino].blocks ==> (b.None? <==> old(fs).unused < Need(old(fs), ino))
      ensures index == old(fs).inodes[ino].blocks && b.None? ==> SameFiles(old(fs), fs) && fs.inodes == old(fs).inodes
      ensures index == old(fs).inodes[ino].blocks && b.None? ==> fs.free == old(fs).free && fs.unused == old(fs).unused
      ensures index == old(fs).inodes[ino].blocks && b.Some? ==> Appended(old(fs), fs, ino, b.value)
      ensures index == old(fs).inodes[ino].blocks && b.Some? ==>
                WasFree(old(fs), b.value) && fs.unused == old(fs).unused - Need(old(fs), ino)
    {
      hide At, Owned, ShapeOk, Packed, CountTrue, IsOwned, SameFiles, Appended, FileBlocks;
      SameFilesSelf(fs);
      var node := fs.inodes[ino];
      if index == node.blocks {
        if index < NDIRECT {
          b := ExtendDirect(ino);
        } else if node.indirect != 0 {
          b := ExtendEntry(ino);
        } else {
          b := ExtendFirstEntry(ino);
        }
        if b.Some? {
          AppendedKeys(old(fs), fs, ino, b.value);
        }
      } else {
        b := Lookup(ino, index);
      }
    }

    lemma AppendedKeys(s: Fs, r: Fs, ino: nat, b: nat)
      requires ino in s.inodes && Appended(s, r, ino, b)
      ensures r.inodes.Keys == s.inodes.Keys && r.inodes[ino].blocks == s.inodes[ino].blocks + 1
      ensures r.inodes[ino].size == s.inodes[ino].size
      ensures FileBlocks(r, ino) == FileBlocks(s, ino) + [b]
    {
      hide At, IsOwned;
      assert |FileBlocks(r, ino)| == |FileBlocks(s, ino)| + 1;
    }

    /** sfs_bmap_truncate_nolock: the last block of the file goes back to the freemap */
    method BmapTruncate(ino: nat)
      requires Ok() && ino in fs.inodes && 0 < fs.inodes[ino].blocks <= MAXBLOCKS
      modifies this`fs, freemap.map_
      ensures Ok() && fs.inodes.Keys == old(fs).inodes.Keys && fs.unused == old(fs).unused + 1 && SameBytes(old(fs), fs)
      ensures FileBlocks(fs, ino) == FileBlocks(old(fs), ino)[..old(fs).inodes[ino].blocks - 1]
      ensures forall j | j in fs.inodes && j != ino :: FileBlocks(fs, j) == FileBlocks(old(fs), j)
      ensures forall j | j in fs.inodes :: fs.inodes[j].size == old(fs).inodes[j].size
    {
      hide At, Owned, ShapeOk, Packed, CountTrue, IsOwned, FileBlocks, Put, SameBytes;
      LastBlock(fs, reserved, ino);
      ShrunkFacts(fs, reserved, ino);
      var n := fs.inodes[ino].blocks - 1;
      var slot := FileSlot(ino, n);
      var b := At(fs, slot);
      fs := Put(fs, slot, 0);
      BlockFree(b);
      fs := SetBlocks(fs, ino, n);
    }

    /**
      sfs_truncfile; false when the freemap runs out while the file grows. The file's blocks then fit its size exactly
      when not even one block could be appended.
      */
    method Truncfile(ino: nat, len: nat) returns (ok: bool)
      requires Ok() && ino in fs.inodes && SizeOk(fs, ino) && fs.inodes[ino].blocks <= MAXBLOCKS
      requires BlocksFor(len) <= MAXBLOCKS
      modifies this`fs, freemap.map_
      ensures Ok() && fs.inodes.Keys == old(fs).inodes.Keys
      ensures ok <==> old(fs).unused >= Cost(old(fs), ino, BlocksFor(len))
      ensures SizeOk(fs, ino) <==> ok || old(fs).unused < Need(old(fs), ino)
      ensures fs.inodes[ino].size == if ok then len else old(fs).inodes[ino].size
      ensures FileBlocks(fs, ino) <= FileBlocks(old(fs), ino) || FileBlocks(old(fs), ino) <= FileBlocks(fs, ino)
      ensures forall j | j in fs.inodes && j != ino ::
                FileBlocks(fs, j) == FileBlocks(old(fs), j) && fs.inodes[j].size == old(fs).inodes[j].size
      ensures BytesKept(old(fs), fs)
    {
      hide At, Owned, ShapeOk, Packed, CountTrue, IsOwned, FileBlocks, SameFiles, SameBytes, BytesKept;
      NothingLost(fs);
      ghost var s := fs;
      var tblks := BlocksFor(len);
      if fs.inodes[ino].size == len {
        return true;
      }
      var nblks := fs.inodes[ino].blocks;
      while nblks < tblks
        invariant nblks <= tblks || nblks == s.inodes[ino].blocks
        invariant BytesKept(s, fs) && s.inodes[ino].blocks <= nblks
        invariant Ok() && Kept(s, fs, ino) && fs.inodes[ino].blocks == nblks
        invariant FileBlocks(s, ino) <= FileBlocks(fs, ino)
        invariant fs.unused - Cost(fs, ino, tblks) == s.unused - Cost(s, ino, tblks)
        invariant nblks == s.inodes[ino].blocks ==> fs == s
        invariant nblks != s.inodes[ino].blocks ==> s.unused >= Need(s, ino)
      {
        ghost var t := fs;
        var b := BmapLoad(ino, nblks);
        if b.None? {
          SameKept(s, t, fs, ino);
          SameShrunk(t, fs);
          ShrunkBytes(s, t, fs);
          return false;
        }
        AppendedKept(s, t, fs, ino, b.value);
        AppendedBytes(s, t, fs, ino, b.value);
        nblks := nblks + 1;
      }
      while tblks < nblks
        invariant tblks <= nblks && BytesKept(s, fs)
        invariant Ok() && Kept(s, fs, ino) && fs.inodes[ino].blocks == nblks
        invariant FileBlocks(fs, ino) <= FileBlocks(s, ino) || FileBlocks(s, ino) <= FileBlocks(fs, ino)
        invariant tblks < nblks ==> FileBlocks(fs, ino) <= FileBlocks(s, ino)
      {
        ghost var t := fs;
        BmapTruncate(ino);
        ShrunkKept(s, t, fs, ino);
        ShrunkBytes(s, t, fs);
        nblks := nblks - 1;
      }
      ghost var t := fs;
      SetSize(ino, len);
      SameDiskBytes(t, fs);
      ShrunkBytes(s, t, fs);
      ok := true;
    }

    lemma SameShrunk(s: Fs, r: Fs)
      requires SameFiles(s, r)
      ensures r.inodes.Keys == s.inodes.Keys && SameBytes(s, r)
      ensures forall j | j in s.inodes :: FileBlocks(r, j) <= FileBlocks(s, j)
    {}

    lemma SameDiskBytes(s: Fs, r: Fs)
      requires r.disk == s.disk
      ensures SameBytes(s, r)
    {}

    /** din->size = len */
    method SetSize(ino: nat, len: nat)
      requires Ok() && ino in fs.inodes
      modifies this`fs
      ensures Ok() && fs.inodes == old(fs).inodes[ino := old(fs).inodes[ino].(size := len)]
      ensures fs.disk == old(fs).disk && fs.free == old(fs).free
      ensures fs.unused == old(fs).unused && forall j | j in fs.inodes :: FileBlocks(fs, j) == FileBlocks(old(fs), j)
    {
      SizedFacts(fs, reserved, ino, len);
      fs := fs.(inodes := fs.inodes[ino := fs.inodes[ino].(size := len)]);
    }
  }

  /** One empty file, whose inode is block 1, and one free block, number 2 */
  function TinyDisk(): Fs {
    Fs([false, false, true], 1, map[1 := Inode(0, 0, Zeros(NDIRECT), 0, 0)], map[])
  }

  lemma TinyDiskValid()
    ensures Valid(TinyDisk(), {0, 1})
  {
    var s := TinyDisk();
    assert s.free[1..] == [false, true] && s.free[1..][1..] == [true] && s.free[1..][1..][1..] == [];
    forall slot ensures At(s, slot) == 0 {}
    assert forall b :: !IsOwned(s, b);
  }

  /** Growing that file to two blocks takes the one block there is, and leaves the file with a block but no bytes. */
  method GrowthRunsOut() returns (f: FileSystem)
    ensures 1 in f.fs.inodes && f.fs.inodes[1].size == 0 && f.fs.inodes[1].blocks > 0 && !SizeOk(f.fs, 1)
  {
    TinyDiskValid();
    f := new FileSystem(TinyDisk(), {0, 1});
    var ok := f.Truncfile(1, 2 * BLKSIZE);
  }
}
