/** sfs_io_nolock of kern/fs/sfs/sfs_inode.c: a file as a sequence of bytes. */
module SfsIo {
  import opened Counting
  import opened Bits
  import opened DiskBlocks
  import opened SfsModel
  import opened Sfs

  /** Byte i of the file, counting into its last block */
  function ByteAt(s: Fs, ino: nat, i: nat): Byte
    requires ino in s.inodes && i / BLKSIZE < s.inodes[ino].blocks
  {
    s.Block(FileBlocks(s, ino)[i / BLKSIZE])[i % BLKSIZE]
  }

  /** A file as the kernel keeps it between calls */
  predicate FileOk(s: Fs, ino: nat) { ino in s.inodes && SizeOk(s, ino) && s.inodes[ino].blocks <= MAXBLOCKS }

  /** The blocks of files are different blocks, and none of them is an index block. */
  lemma BlocksDiffer(s: Fs, reserved: set<nat>, ino: nat, j: nat, a: nat, b: nat)
    requires Valid(s, reserved) && ino in s.inodes && j in s.inodes && a < s.inodes[ino].blocks
    ensures b < s.inodes[j].blocks && (ino != j || a != b) ==> FileBlocks(s, ino)[a] != FileBlocks(s, j)[b]
  {
    hide IsOwned, At;
    assert Packed(s, ino) && Packed(s, j) && ShapeOk(s, ino) && ShapeOk(s, j);
    FileSlotFacts(ino, a, b, j);
  }

  lemma DataNoIndex(s: Fs, reserved: set<nat>, ino: nat, k: nat, h: Slot)
    requires Valid(s, reserved) && ino in s.inodes && k < s.inodes[ino].blocks && IsIndex(h)
    ensures FileBlocks(s, ino)[k] != At(s, h)
  {
    hide IsOwned, At;
    assert Packed(s, ino) && ShapeOk(s, ino);
    FileSlotFacts(ino, k, 0, 0);
  }

  /** sfs_wbuf: chunk goes into block b at offset o */
  function Splice(s: Fs, b: nat, o: nat, chunk: seq<Byte>): Fs
    requires o + |chunk| <= BLKSIZE
  {
    var raw := s.Block(b);
    s.(disk := s.disk[b := raw[..o] + chunk + raw[o + |chunk|..]])
  }

  lemma SpliceAt(s: Fs, reserved: set<nat>, ino: nat, k: nat, o: nat, chunk: seq<Byte>, slot: Slot)
    requires Valid(s, reserved) && ino in s.inodes && k < s.inodes[ino].blocks && o + |chunk| <= BLKSIZE
    ensures At(Splice(s, FileBlocks(s, ino)[k], o, chunk), slot) == At(s, slot)
    decreases slot.Deep?, InBlock(slot)
  {
    hide Valid, WordAt;
    if InBlock(slot) {
      var r := Splice(s, FileBlocks(s, ino)[k], o, chunk);
      SpliceAt(s, reserved, ino, k, o, chunk, Holder(slot));
      DataNoIndex(s, reserved, ino, k, Holder(slot));
      InBlockAt(s, slot);
      InBlockAt(r, slot);
      hide At;
    } else {
      hide Word;
    }
  }

  /** A write to a data block reaches no index block, so the block map is as it was. */
  lemma SpliceFacts(s: Fs, reserved: set<nat>, ino: nat, k: nat, o: nat, chunk: seq<Byte>)
    requires Valid(s, reserved) && ino in s.inodes && k < s.inodes[ino].blocks && o + |chunk| <= BLKSIZE
    ensures var r := Splice(s, FileBlocks(s, ino)[k], o, chunk);
            && Valid(r, reserved) && r.inodes == s.inodes && (forall slot :: At(r, slot) == At(s, slot))
            && (forall j | j in s.inodes :: FileBlocks(r, j) == FileBlocks(s, j))
  {
    hide Owned, IsOwned, At;
    var r := Splice(s, FileBlocks(s, ino)[k], o, chunk);
    forall slot ensures At(r, slot) == At(s, slot) {
      SpliceAt(s, reserved, ino, k, o, chunk, slot);
    }
    SameOwned(s, r, reserved);
    forall j | j in s.inodes ensures ShapeOk(r, j) && Packed(r, j) && FileBlocks(r, j) == FileBlocks(s, j) {
      assert ShapeOk(s, j) && Packed(s, j);
    }
  }

  /** The blocks and bytes of every other file are untouched. */
  ghost predicate OthersSame(s: Fs, r: Fs, ino: nat) {
    && r.inodes.Keys == s.inodes.Keys
    && (forall j | j in s.inodes && j != ino ::
          FileBlocks(r, j) == FileBlocks(s, j) && r.inodes[j].size == s.inodes[j].size)
    && (forall j, m | j in s.inodes && j != ino && 0 <= m < s.inodes[j].blocks ::
          r.Block(FileBlocks(s, j)[m]) == s.Block(FileBlocks(s, j)[m]))
  }

  /** The bytes from `start` on are those of chunk, and every other byte the file had is as it was. */
  ghost predicate Wrote(s: Fs, r: Fs, ino: nat, start: nat, chunk: seq<Byte>) {
    && ino in s.inodes && OthersSame(s, r, ino) && r.inodes[ino].size == s.inodes[ino].size
    && FileBlocks(s, ino) <= FileBlocks(r, ino) && s.inodes[ino].blocks <= r.inodes[ino].blocks
    && (forall i: nat | start <= i < start + |chunk| :: i / BLKSIZE < r.inodes[ino].blocks)
    && (forall i: nat | i / BLKSIZE < r.inodes[ino].blocks :: Reads(s, r, ino, start, chunk, i))
  }

  ghost predicate Reads(s: Fs, r: Fs, ino: nat, start: nat, chunk: seq<Byte>, i: nat)
    requires ino in s.inodes && ino in r.inodes && i / BLKSIZE < r.inodes[ino].blocks
  {
    if start <= i < start + |chunk| then ByteAt(r, ino, i) == chunk[i - start]
    else i / BLKSIZE < s.inodes[ino].blocks ==> ByteAt(r, ino, i) == ByteAt(s, ino, i)
  }

  /** Appending a zeroed block writes nothing. */
  lemma AppendedWrote(s: Fs, r: Fs, ino: nat, b: nat, start: nat)
    requires ino in s.inodes && Appended(s, r, ino, b)
    ensures Wrote(s, r, ino, start, []) && r.inodes[ino].blocks == s.inodes[ino].blocks + 1
  {
    hide At, ZeroBytes;
    assert |FileBlocks(r, ino)| == |FileBlocks(s, ino)| + 1;
  }

  lemma NothingWrote(s: Fs, ino: nat, start: nat)
    requires ino in s.inodes
    ensures Wrote(s, s, ino, start, [])
  {}

  lemma SpliceWrote(s: Fs, reserved: set<nat>, ino: nat, k: nat, o: nat, chunk: seq<Byte>)
    requires Valid(s, reserved) && ino in s.inodes && k < s.inodes[ino].blocks && o + |chunk| <= BLKSIZE
    ensures var r := Splice(s, FileBlocks(s, ino)[k], o, chunk);
            Valid(r, reserved) && r.inodes == s.inodes && Wrote(s, r, ino, k * BLKSIZE + o, chunk)
  {
    hide Valid, At;
    SpliceFacts(s, reserved, ino, k, o, chunk);
    var r, start := Splice(s, FileBlocks(s, ino)[k], o, chunk), k * BLKSIZE + o;
    forall i: nat | start <= i < start + |chunk| ensures i / BLKSIZE == k {}
    forall i: nat | i / BLKSIZE < r.inodes[ino].blocks ensures Reads(s, r, ino, start, chunk, i) {
      BlocksDiffer(s, reserved, ino, ino, k, i / BLKSIZE);
    }
    forall j, m | j in s.inodes && j != ino && 0 <= m < s.inodes[j].blocks
      ensures r.Block(FileBlocks(s, j)[m]) == s.Block(FileBlocks(s, j)[m])
    {
      BlocksDiffer(s, reserved, ino, j, k, m);
    }
  }

  /** Two writes, one behind the other, are one. */
  lemma WroteBoth(s: Fs, t: Fs, r: Fs, ino: nat, start: nat, a: seq<Byte>, b: seq<Byte>)
    requires Wrote(s, t, ino, start, a) && Wrote(t, r, ino, start + |a|, b)
    ensures Wrote(s, r, ino, start, a + b)
  {
    hide FileBlocks, ByteAt;
    BothOthers(s, t, r, ino);
    forall i: nat | start <= i < start + |a + b| ensures i / BLKSIZE < r.inodes[ino].blocks {
      if i < start + |a| {
        assert i / BLKSIZE < t.inodes[ino].blocks;
      }
    }
    forall i: nat | i / BLKSIZE < r.inodes[ino].blocks ensures Reads(s, r, ino, start, a + b, i) {
      assert Reads(t, r, ino, start + |a|, b, i);
      if i / BLKSIZE < t.inodes[ino].blocks {
        assert Reads(s, t, ino, start, a, i);
      } else {
        assert !(start <= i < start + |a|);
      }
    }
  }

  lemma BothOthers(s: Fs, t: Fs, r: Fs, ino: nat)
    requires OthersSame(s, t, ino) && OthersSame(t, r, ino)
    ensures OthersSame(s, r, ino)
  {
    forall j | j in s.inodes
      ensures |FileBlocks(s, j)| == s.inodes[j].blocks && |FileBlocks(t, j)| == t.inodes[j].blocks
    {}
    hide FileBlocks;
  }

  lemma SameSize(s: Fs, ino: nat)
    requires ino in s.inodes
    ensures |FileBlocks(s, ino)| == s.inodes[ino].blocks
  {}

  // --- the parts of a request ---

  function Max(a: nat, b: nat): nat { if a < b then b else a }

  /** n blocks of a file from block k on follow each other on the disk. */
  predicate InSequence(s: Fs, ino: nat, k: nat, n: nat)
    requires ino in s.inodes && k + n <= s.inodes[ino].blocks
  {
    forall j | k <= j < k + n :: FileBlocks(s, ino)[j] == FileBlocks(s, ino)[k] + (j - k)
  }

  /** Several whole blocks between two offsets are there and follow each other on the disk. */
  ghost predicate MiddleOk(s: Fs, ino: nat, offset: nat, endpos: nat) {
    var k, m := BlocksFor(offset), endpos / BLKSIZE;
    k + 1 < m ==> ino in s.inodes && m <= s.inodes[ino].blocks && InSequence(s, ino, k, m - k)
  }

  /** Where the parts of a request lie */
  lemma Geometry(offset: nat, endpos: nat, size: nat)
    requires offset < endpos <= size
    ensures offset / BLKSIZE < BlocksFor(size) && endpos / BLKSIZE <= BlocksFor(size)
    ensures endpos % BLKSIZE > 0 ==> endpos / BLKSIZE < BlocksFor(size)
    ensures BlocksFor(offset) == offset / BLKSIZE + (if offset % BLKSIZE > 0 then 1 else 0)
  {}

  // --- writing ---

  /** sfs_bmap_load_nolock for a write: nothing when there is no room, which the source asserts against */
  method Locate(f: FileSystem, ino: nat, blk: nat, ghost start: nat) returns (b: Option<nat>)
    requires f.Ok() && ino in f.fs.inodes && blk <= f.fs.inodes[ino].blocks && blk < MAXBLOCKS
    modifies f`fs, f.freemap.map_
    ensures f.Ok() && ino in f.fs.inodes
    ensures b.Some? <==> blk < old(f.fs).inodes[ino].blocks || old(f.fs).unused >= Need(old(f.fs), ino)
    ensures blk < old(f.fs).inodes[ino].blocks ==> f.fs == old(f.fs)
    ensures b.Some? ==> f.fs.inodes[ino].blocks == Max(old(f.fs).inodes[ino].blocks, blk + 1)
    ensures b.Some? ==> FileBlocks(f.fs, ino)[blk] == b.value && Wrote(old(f.fs), f.fs, ino, start, [])
    ensures b.Some? ==> SameBudget(old(f.fs), f.fs, ino, blk)
  {
    hide Valid, FileBlocks, Appended, SameFiles, OthersSame, Reads;
    ghost var s := f.fs;
    b := f.BmapLoad(ino, blk);
    if b.Some? && blk == s.inodes[ino].blocks {
      AppendedWrote(s, f.fs, ino, b.value, start);
      f.AppendedKeys(s, f.fs, ino, b.value);
      SameSize(s, ino);
      AppendedBudget(s, f.fs, ino, b.value);
    } else {
      NothingWrote(s, ino, start);
    }
  }

  /** What is free beyond what it costs to grow the file to n blocks */
  function Spare(s: Fs, ino: nat, n: nat): int
    requires ino in s.inodes
  {
    s.unused - Cost(s, ino, n)
  }

  /** That is the same, for any n past blk. */
  ghost predicate SameBudget(s: Fs, r: Fs, ino: nat, blk: nat) {
    ino in s.inodes && ino in r.inodes && forall n: nat | n > blk :: Spare(s, ino, n) == Spare(r, ino, n)
  }

  /** A file that lacks blocks cannot have them when not even the next fits, and one that has them needs no room. */
  lemma SpareFacts(s: Fs, ino: nat, n: nat)
    requires ino in s.inodes
    ensures n > s.inodes[ino].blocks && s.unused < Need(s, ino) ==> Spare(s, ino, n) < 0
    ensures n <= s.inodes[ino].blocks ==> Spare(s, ino, n) >= 0
  {}

  lemma AppendedBudget(s: Fs, r: Fs, ino: nat, b: nat)
    requires ino in s.inodes && Appended(s, r, ino, b) && r.unused == s.unused - Need(s, ino)
    ensures SameBudget(s, r, ino, s.inodes[ino].blocks)
  {
    hide At;
    assert |FileBlocks(r, ino)| == |FileBlocks(s, ino)| + 1;
  }

  /** One part of a request: chunk goes into block blk of the file, appended if need be; false when there is no room */
  method WritePart(f: FileSystem, ino: nat, blk: nat, o: nat, chunk: seq<Byte>) returns (ok: bool)
    requires f.Ok() && ino in f.fs.inodes && o + |chunk| <= BLKSIZE && blk <= f.fs.inodes[ino].blocks && blk < MAXBLOCKS
    modifies f`fs, f.freemap.map_
    ensures f.Ok() && ino in f.fs.inodes
    ensures ok <==> blk < old(f.fs).inodes[ino].blocks || old(f.fs).unused >= Need(old(f.fs), ino)
    ensures ok ==> Wrote(old(f.fs), f.fs, ino, blk * BLKSIZE + o, chunk) && SameBudget(old(f.fs), f.fs, ino, blk)
    ensures ok ==> f.fs.inodes[ino].blocks == Max(old(f.fs).inodes[ino].blocks, blk + 1)
    ensures blk < old(f.fs).inodes[ino].blocks ==> f.fs.inodes == old(f.fs).inodes && f.fs.unused == old(f.fs).unused
    ensures blk < old(f.fs).inodes[ino].blocks ==> FileBlocks(f.fs, ino) == FileBlocks(old(f.fs), ino)
  {
    hide Valid, FileBlocks, Wrote, Splice;
    ghost var s, start := f.fs, blk * BLKSIZE + o;
    var b := Locate(f, ino, blk, start);
    if b.None? {
      return false;
    }
    ghost var t := f.fs;
    SpliceWrote(t, f.reserved, ino, blk, o, chunk);
    SpliceFacts(t, f.reserved, ino, blk, o, chunk);
    SpliceKept(t, b.value, o, chunk);
    f.fs := Splice(f.fs, b.value, o, chunk);
    WroteBoth(s, t, f.fs, ino, start, [], chunk);
    assert [] + chunk == chunk;
    ok := true;
  }

  lemma SpliceKept(s: Fs, b: nat, o: nat, chunk: seq<Byte>)
    requires o + |chunk| <= BLKSIZE
    ensures var r := Splice(s, b, o, chunk); r.unused == s.unused && r.free == s.free && r.inodes == s.inodes
  {}

  /** sfs_wblock: data goes into the blocks from b on, as they follow each other on the disk */
  function PutBlocks(s: Fs, b: nat, data: seq<Raw>): (r: Fs)
    ensures r.unused == s.unused && r.free == s.free && r.inodes == s.inodes
  {
    if data == [] then s
    else
      var n := |data| - 1;
      var t := PutBlocks(s, b, data[..n]);
      t.(disk := t.disk[b + n := data[n]])
  }

  /** A buffer of n blocks, block by block */
  function Pieces(chunk: seq<Byte>, n: nat): (r: seq<Raw>)
    requires |chunk| == n * BLKSIZE
    ensures |r| == n && forall j | 0 <= j < n :: r[j] == chunk[j * BLKSIZE..(j + 1) * BLKSIZE]
  {
    seq(n, j requires 0 <= j < n => chunk[j * BLKSIZE..(j + 1) * BLKSIZE])
  }

  lemma SpliceWhole(s: Fs, b: nat, raw: Raw)
    ensures Splice(s, b, 0, raw) == s.(disk := s.disk[b := raw])
  {
    assert s.Block(b)[..0] + raw + s.Block(b)[BLKSIZE..] == raw;
  }

  /** The whole blocks of a request: the first is looked up, the others are those behind it on the disk */
  method WriteBlocks(f: FileSystem, ino: nat, blk: nat, n: nat, chunk: seq<Byte>) returns (ok: bool)
    requires f.Ok() && ino in f.fs.inodes && 0 < n && |chunk| == n * BLKSIZE
    requires blk <= f.fs.inodes[ino].blocks && blk < MAXBLOCKS
    requires n > 1 ==> blk + n <= f.fs.inodes[ino].blocks && InSequence(f.fs, ino, blk, n)
    modifies f`fs, f.freemap.map_
    ensures f.Ok() && ino in f.fs.inodes
    ensures ok <==> blk < old(f.fs).inodes[ino].blocks || old(f.fs).unused >= Need(old(f.fs), ino)
    ensures ok ==> Wrote(old(f.fs), f.fs, ino, blk * BLKSIZE, chunk) && SameBudget(old(f.fs), f.fs, ino, blk)
    ensures ok ==> f.fs.inodes[ino].blocks == Max(old(f.fs).inodes[ino].blocks, blk + n)
    ensures blk < old(f.fs).inodes[ino].blocks ==>
              f.fs == PutBlocks(old(f.fs), FileBlocks(old(f.fs), ino)[blk], Pieces(chunk, n))
  {
    hide Valid, FileBlocks, Wrote, Splice, Pieces, Need, PutBlocks;
    ghost var s := f.fs;
    var b := Locate(f, ino, blk, blk * BLKSIZE);
    if b.None? {
      return false;
    }
    ghost var t := f.fs;
    WriteRun(f, ino, blk, b.value, n, chunk);
    WroteBoth(s, t, f.fs, ino, blk * BLKSIZE, [], chunk);
    assert [] + chunk == chunk;
    ok := true;
  }

  /** The loop of sfs_wblock, over blocks that are the file's from block blk on */
  method WriteRun(f: FileSystem, ghost ino: nat, ghost blk: nat, b: nat, n: nat, chunk: seq<Byte>)
    requires f.Ok() && ino in f.fs.inodes && blk + n <= f.fs.inodes[ino].blocks && |chunk| == n * BLKSIZE
    requires forall j | blk <= j < blk + n :: FileBlocks(f.fs, ino)[j] == b + (j - blk)
    modifies f`fs
    ensures f.Ok() && f.fs == PutBlocks(old(f.fs), b, Pieces(chunk, n))
    ensures Wrote(old(f.fs), f.fs, ino, blk * BLKSIZE, chunk)
  {
    hide Valid, FileBlocks, Wrote, Pieces;
    ghost var s, data := f.fs, Pieces(chunk, n);
    NothingWrote(s, ino, blk * BLKSIZE);
    for j := 0 to n
      invariant f.Ok() && f.fs.inodes == s.inodes && FileBlocks(f.fs, ino) == FileBlocks(s, ino)
      invariant f.fs == PutBlocks(s, b, data[..j])
      invariant Wrote(s, f.fs, ino, blk * BLKSIZE, chunk[..j * BLKSIZE])
    {
      var part := chunk[j * BLKSIZE..(j + 1) * BLKSIZE];
      ghost var t := f.fs;
      assert data[..j + 1][..j] == data[..j];
      WriteWhole(f, ino, blk + j, b + j, part);
      WroteBoth(s, t, f.fs, ino, blk * BLKSIZE, chunk[..j * BLKSIZE], part);
      assert chunk[..j * BLKSIZE] + part == chunk[..(j + 1) * BLKSIZE];
    }
    assert chunk[..n * BLKSIZE] == chunk && data[..n] == data;
  }

  /** sfs_wblock of one block, which is block k of a file */
  method WriteWhole(f: FileSystem, ghost ino: nat, ghost k: nat, b: nat, raw: Raw)
    requires f.Ok() && ino in f.fs.inodes && k < f.fs.inodes[ino].blocks && FileBlocks(f.fs, ino)[k] == b
    modifies f`fs
    ensures f.Ok() && f.fs == old(f.fs).(disk := old(f.fs).disk[b := raw])
    ensures FileBlocks(f.fs, ino) == FileBlocks(old(f.fs), ino) && Wrote(old(f.fs), f.fs, ino, k * BLKSIZE, raw)
  {
    hide Valid, FileBlocks, Wrote;
    SpliceWrote(f.fs, f.reserved, ino, k, 0, raw);
    SpliceFacts(f.fs, f.reserved, ino, k, 0, raw);
    SpliceWhole(f.fs, b, raw);
    f.fs := f.fs.(disk := f.fs.disk[b := raw]);
  }

  /** There is room for the blocks the file lacks for n bytes. */
  predicate Fits(s: Fs, ino: nat, n: nat)
    requires ino in s.inodes
  {
    Spare(s, ino, BlocksFor(n)) >= 0
  }

  /** The rest of a request from a block boundary on: whole blocks, and the beginning of a last one */
  method WriteAligned(f: FileSystem, ino: nat, blkno: nat, nblks: nat, rest: seq<Byte>) returns (ok: bool)
    requires f.Ok() && ino in f.fs.inodes && nblks * BLKSIZE <= |rest| < (nblks + 1) * BLKSIZE
    requires blkno <= f.fs.inodes[ino].blocks <= MAXBLOCKS && blkno + BlocksFor(|rest|) <= MAXBLOCKS
    requires nblks > 1 ==> blkno + nblks <= f.fs.inodes[ino].blocks && InSequence(f.fs, ino, blkno, nblks)
    modifies f`fs, f.freemap.map_
    ensures f.Ok() && ino in f.fs.inodes && (ok <==> Spare(old(f.fs), ino, blkno + BlocksFor(|rest|)) >= 0)
    ensures ok ==> Wrote(old(f.fs), f.fs, ino, blkno * BLKSIZE, rest)
    ensures ok ==> f.fs.inodes[ino].blocks == Max(old(f.fs).inodes[ino].blocks, blkno + BlocksFor(|rest|))
  {
    hide Valid, FileBlocks, Wrote, Cost, Need, SameBudget, InSequence, Spare;
    ghost var s, n := f.fs, blkno + BlocksFor(|rest|);
    var len := nblks * BLKSIZE;
    NothingWrote(s, ino, blkno * BLKSIZE);
    SpareFacts(s, ino, n);
    ok := true;
    if nblks > 0 {
      ok := WriteBlocks(f, ino, blkno, nblks, rest[..len]);
      if !ok {
        return;
      }
      SpareSame(s, f.fs, ino, blkno, n);
    }
    ghost var t := f.fs;
    SpareFacts(t, ino, n);
    if |rest| > len {
      ok := WritePart(f, ino, blkno + nblks, 0, rest[len..]);
      if !ok {
        return;
      }
      WroteBoth(s, t, f.fs, ino, blkno * BLKSIZE, rest[..len], rest[len..]);
      SpareSame(t, f.fs, ino, blkno + nblks, n);
      SpareFacts(f.fs, ino, n);
    }
    assert rest[..len] + rest[len..] == rest && (len == 0 ==> rest[..len] == []);
    assert |rest| == len ==> rest[..len] == rest;
  }

  /** sfs_io_nolock up to the update of the size: buf goes into the file from offset on */
  method WriteParts(f: FileSystem, ino: nat, offset: nat, buf: seq<Byte>) returns (ok: bool)
    requires f.Ok() && FileOk(f.fs, ino) && 0 < |buf| && offset <= f.fs.inodes[ino].size
    requires offset + |buf| <= MAXBLOCKS * BLKSIZE && MiddleOk(f.fs, ino, offset, offset + |buf|)
    modifies f`fs, f.freemap.map_
    ensures f.Ok() && ino in f.fs.inodes && (ok <==> Fits(old(f.fs), ino, offset + |buf|))
    ensures ok ==> Wrote(old(f.fs), f.fs, ino, offset, buf)
    ensures ok ==> f.fs.inodes[ino].blocks == Max(old(f.fs).inodes[ino].blocks, BlocksFor(offset + |buf|))
  {
    hide Valid, FileBlocks, Wrote, Cost, Need, SameBudget, InSequence, Spare;
    ghost var s := f.fs;
    var endpos := offset + |buf|;
    var blkno, blkoff := offset / BLKSIZE, offset % BLKSIZE;
    var nblks := endpos / BLKSIZE - blkno;
    Layout(offset, endpos, s.inodes[ino].size);
    if blkoff == 0 {
      ok := WriteAligned(f, ino, blkno, nblks, buf);
      return;
    }
    var blklen := if nblks > 0 then BLKSIZE - blkoff else endpos - offset;
    ok := WritePart(f, ino, blkno, blkoff, buf[..blklen]);
    ghost var t := f.fs;
    SpareSame(s, t, ino, blkno, BlocksFor(endpos));
    if nblks > 0 {
      if nblks > 2 {
        SameSequence(s, t, ino, blkno + 1, nblks - 1);
      }
      ok := WriteAligned(f, ino, blkno + 1, nblks - 1, buf[blklen..]);
      if ok {
        WroteBoth(s, t, f.fs, ino, offset, buf[..blklen], buf[blklen..]);
      }
    } else {
      SpareFacts(t, ino, BlocksFor(endpos));
      assert buf[..blklen] == buf;
    }
    assert buf[..blklen] + buf[blklen..] == buf;
  }

  /** Where the parts of a write lie */
  lemma Layout(offset: nat, endpos: nat, size: nat)
    requires offset < endpos && offset <= size
    ensures offset % BLKSIZE > 0 ==> offset / BLKSIZE < BlocksFor(size)
    ensures BlocksFor(offset) <= BlocksFor(size) && BlocksFor(offset) <= BlocksFor(endpos)
    ensures BlocksFor(offset) == offset / BLKSIZE + (if offset % BLKSIZE > 0 then 1 else 0)
    ensures BlocksFor(endpos) == endpos / BLKSIZE + (if endpos % BLKSIZE > 0 then 1 else 0)
    ensures offset / BLKSIZE <= endpos / BLKSIZE
    ensures var k := BlocksFor(offset);
            k * BLKSIZE <= endpos ==> BlocksFor(endpos) == k + BlocksFor(endpos - k * BLKSIZE)
  {}

  lemma SpareSame(s: Fs, r: Fs, ino: nat, blk: nat, n: nat)
    requires SameBudget(s, r, ino, blk) && n > blk
    ensures ino in s.inodes && ino in r.inodes && Spare(s, ino, n) == Spare(r, ino, n)
  {}

  lemma SameSequence(s: Fs, r: Fs, ino: nat, k: nat, n: nat)
    requires ino in s.inodes && ino in r.inodes && FileBlocks(r, ino) == FileBlocks(s, ino)
    requires k + n <= s.inodes[ino].blocks && k + n <= r.inodes[ino].blocks && InSequence(s, ino, k, n)
    ensures InSequence(r, ino, k, n)
  {}

  /** The file reads as before, except for buf at offset; it is as long as it was, or ends with buf. */
  ghost predicate Written(s: Fs, r: Fs, ino: nat, offset: nat, buf: seq<Byte>)
    requires FileOk(s, ino) && FileOk(r, ino)
  {
    && r.inodes[ino].size == Max(s.inodes[ino].size, offset + |buf|) && OthersSame(s, r, ino)
    && FileBlocks(s, ino) <= FileBlocks(r, ino)
    && forall i: nat | i < r.inodes[ino].size :: WrittenByte(s, r, ino, offset, buf, i)
  }

  predicate WrittenByte(s: Fs, r: Fs, ino: nat, offset: nat, buf: seq<Byte>, i: nat)
    requires ino in s.inodes && ino in r.inodes
  {
    && i / BLKSIZE < r.inodes[ino].blocks
    && if offset <= i < offset + |buf| then ByteAt(r, ino, i) == buf[i - offset]
       else i / BLKSIZE < s.inodes[ino].blocks && ByteAt(r, ino, i) == ByteAt(s, ino, i)
  }

  /**
    sfs_io_nolock writing at or before the end of the file, where several whole blocks in one request are there and
    follow each other on the disk; false when its assertion that the file can be extended fails.
    */
  method Write(f: FileSystem, ino: nat, offset: nat, buf: seq<Byte>) returns (ok: bool)
    requires f.Ok() && FileOk(f.fs, ino) && offset <= f.fs.inodes[ino].size
    requires offset + |buf| <= MAXBLOCKS * BLKSIZE && MiddleOk(f.fs, ino, offset, offset + |buf|)
    modifies f`fs, f.freemap.map_
    ensures f.Ok() && (ok <==> |buf| == 0 || Fits(old(f.fs), ino, offset + |buf|))
    ensures ok ==> FileOk(f.fs, ino) && Written(old(f.fs), f.fs, ino, offset, buf)
  {
    hide Valid, FileBlocks, Wrote, Fits, OthersSame, WrittenByte, Written;
    ghost var s := f.fs;
    if |buf| == 0 {
      NothingWrote(s, ino, offset);
      WrittenFacts(s, s, s, ino, offset, buf);
      return true;
    }
    ok := WriteParts(f, ino, offset, buf);
    if !ok {
      return;
    }

    ghost var t := f.fs;
    WroteSize(s, t, ino, offset, buf);
    if offset + |buf| > f.fs.inodes[ino].size {
      f.SetSize(ino, offset + |buf|);
    }
    WrittenFacts(s, t, f.fs, ino, offset, buf);
  }

  lemma WroteSize(s: Fs, r: Fs, ino: nat, start: nat, chunk: seq<Byte>)
    requires Wrote(s, r, ino, start, chunk)
    ensures ino in s.inodes && ino in r.inodes && r.inodes[ino].size == s.inodes[ino].size
  {}

  /** t is s with buf written but the old size; r is t with its final size. */
  lemma WrittenFacts(s: Fs, t: Fs, r: Fs, ino: nat, offset: nat, buf: seq<Byte>)
    requires FileOk(s, ino) && Wrote(s, t, ino, offset, buf) && ino in t.inodes && offset <= s.inodes[ino].size
    requires t.inodes[ino].blocks == Max(s.inodes[ino].blocks, if buf == [] then 0 else BlocksFor(offset + |buf|))
    requires offset + |buf| <= MAXBLOCKS * BLKSIZE
    requires r.inodes == t.inodes[ino := t.inodes[ino].(size := Max(s.inodes[ino].size, offset + |buf|))]
    requires r.disk == t.disk && forall j | j in r.inodes :: FileBlocks(r, j) == FileBlocks(t, j)
    ensures FileOk(r, ino) && Written(s, r, ino, offset, buf)
  {
    hide FileBlocks, At;
    forall i: nat | i < r.inodes[ino].size ensures WrittenByte(s, r, ino, offset, buf, i) {
      assert Reads(s, t, ino, offset, buf, i);
    }
  }

  // --- reading ---

  /** chunk is what the file holds from byte `start` on. */
  ghost predicate SliceOf(s: Fs, ino: nat, start: nat, chunk: seq<Byte>) {
    forall i: nat | start <= i < start + |chunk| :: Shows(s, ino, start, chunk, i)
  }

  predicate Shows(s: Fs, ino: nat, start: nat, chunk: seq<Byte>, i: nat)
    requires start <= i < start + |chunk|
  {
    ino in s.inodes && i / BLKSIZE < s.inodes[ino].blocks && ByteAt(s, ino, i) == chunk[i - start]
  }

  /** The disk block read for block b of a file, when its blocks from k up to m are read at once */
  function SourceBlock(s: Fs, ino: nat, k: nat, m: nat, b: nat): nat
    requires ino in s.inodes && b < s.inodes[ino].blocks
  {
    if k <= b < m then FileBlocks(s, ino)[k] + (b - k) else FileBlocks(s, ino)[b]
  }

  /** chunk is what reading from byte `start` on gives when blocks k up to m are read at once. */
  ghost predicate Fetched(s: Fs, ino: nat, k: nat, m: nat, start: nat, chunk: seq<Byte>) {
    forall i: nat | start <= i < start + |chunk| :: Fetches(s, ino, k, m, start, chunk, i)
  }

  predicate Fetches(s: Fs, ino: nat, k: nat, m: nat, start: nat, chunk: seq<Byte>, i: nat)
    requires start <= i < start + |chunk|
  {
    && ino in s.inodes && i / BLKSIZE < s.inodes[ino].blocks
    && chunk[i - start] == s.Block(SourceBlock(s, ino, k, m, i / BLKSIZE))[i % BLKSIZE]
  }

  lemma NothingFetched(s: Fs, ino: nat, k: nat, m: nat, start: nat)
    ensures Fetched(s, ino, k, m, start, [])
  {}

  lemma FetchedBoth(s: Fs, ino: nat, k: nat, m: nat, start: nat, a: seq<Byte>, b: seq<Byte>)
    requires Fetched(s, ino, k, m, start, a) && Fetched(s, ino, k, m, start + |a|, b)
    ensures Fetched(s, ino, k, m, start, a + b)
  {
    hide SourceBlock;
    forall i: nat | start <= i < start + |a + b| ensures Fetches(s, ino, k, m, start, a + b, i) {
      if i < start + |a| {
        assert Fetches(s, ino, k, m, start, a, i);
      } else {
        assert Fetches(s, ino, k, m, start + |a|, b, i);
      }
    }
  }

  /** What is fetched is the file's own when the blocks read at once follow each other on the disk. */
  lemma FetchedSlice(s: Fs, ino: nat, offset: nat, chunk: seq<Byte>)
    requires Fetched(s, ino, BlocksFor(offset), (offset + |chunk|) / BLKSIZE, offset, chunk)
    requires MiddleOk(s, ino, offset, offset + |chunk|)
    ensures SliceOf(s, ino, offset, chunk)
  {
    hide FileBlocks;
    forall i: nat | offset <= i < offset + |chunk| ensures Shows(s, ino, offset, chunk, i) {
      assert Fetches(s, ino, BlocksFor(offset), (offset + |chunk|) / BLKSIZE, offset, chunk, i);
    }
  }

  /** sfs_bmap_load_nolock and sfs_rbuf on a block the file has, not one of those read at once */
  method ReadPart(f: FileSystem, ino: nat, blk: nat, o: nat, len: nat, ghost k: nat, ghost m: nat)
    returns (chunk: seq<Byte>)
    requires f.Ok() && ino in f.fs.inodes && o + len <= BLKSIZE && blk < f.fs.inodes[ino].blocks && blk < MAXBLOCKS
    requires !(k <= blk < m)
    modifies f`fs, f.freemap.map_
    ensures f.Ok() && f.fs == old(f.fs) && |chunk| == len && Fetched(f.fs, ino, k, m, blk * BLKSIZE + o, chunk)
  {
    hide Valid;
    var b := f.BmapLoad(ino, blk);
    chunk := f.fs.Block(b.value)[o..o + len];
    ghost var start := blk * BLKSIZE + o;
    forall i: nat | start <= i < start + len ensures Fetches(f.fs, ino, k, m, start, chunk, i) {
      assert i / BLKSIZE == blk && i % BLKSIZE == o + (i - start);
    }
  }

  /** sfs_bmap_load_nolock and sfs_rblock: the first of n whole blocks, and the blocks that follow it on the disk */
  method ReadBlocks(f: FileSystem, ino: nat, blk: nat, n: nat) returns (chunk: seq<Byte>)
    requires f.Ok() && ino in f.fs.inodes && 0 < n && blk + n <= f.fs.inodes[ino].blocks && blk < MAXBLOCKS
    modifies f`fs, f.freemap.map_
    ensures f.Ok() && f.fs == old(f.fs) && |chunk| == n * BLKSIZE
    ensures chunk == Contents(f.fs, Consecutive(FileBlocks(f.fs, ino)[blk], n))
    ensures Fetched(f.fs, ino, blk, blk + n, blk * BLKSIZE, chunk)
  {
    hide Valid, FileBlocks, Fetched;
    var b := f.BmapLoad(ino, blk);
    chunk := [];
    NothingFetched(f.fs, ino, blk, blk + n, blk * BLKSIZE);
    for j := 0 to n
      invariant f.Ok() && f.fs == old(f.fs) && |chunk| == j * BLKSIZE
      invariant chunk == Contents(f.fs, Consecutive(b.value, j))
      invariant Fetched(f.fs, ino, blk, blk + n, blk * BLKSIZE, chunk)
    {
      var raw := f.fs.Block(b.value + j);
      assert Consecutive(b.value, j + 1)[..j] == Consecutive(b.value, j);
      WholeBlock(f.fs, ino, blk, blk + n, blk + j, raw);
      FetchedBoth(f.fs, ino, blk, blk + n, blk * BLKSIZE, chunk, raw);
      chunk := chunk + raw;
    }
  }

  lemma WholeBlock(s: Fs, ino: nat, k: nat, m: nat, b: nat, raw: Raw)
    requires ino in s.inodes && k <= b < m <= s.inodes[ino].blocks && raw == s.Block(FileBlocks(s, ino)[k] + (b - k))
    ensures Fetched(s, ino, k, m, b * BLKSIZE, raw)
  {
    hide FileBlocks;
    forall i: nat | b * BLKSIZE <= i < b * BLKSIZE + BLKSIZE ensures Fetches(s, ino, k, m, b * BLKSIZE, raw, i) {
      assert i / BLKSIZE == b && i % BLKSIZE == i - b * BLKSIZE;
    }
  }

  /**
    sfs_io_nolock reading: as many bytes as there are. Whole blocks in the middle are read at once, which gives the
    file's own bytes when they follow each other on the disk. With at most one of them, as in every request of the chunk
    loops, they do.
    */
  method Read(f: FileSystem, ino: nat, offset: nat, len: nat) returns (out: seq<Byte>)
    requires f.Ok() && FileOk(f.fs, ino)
    modifies f`fs, f.freemap.map_
    ensures f.Ok() && f.fs == old(f.fs)
    ensures |out| == if offset >= f.fs.inodes[ino].size then 0
                     else if offset + len <= f.fs.inodes[ino].size then len else f.fs.inodes[ino].size - offset
    ensures Fetched(f.fs, ino, BlocksFor(offset), (offset + |out|) / BLKSIZE, offset, out)
    ensures MiddleOk(f.fs, ino, offset, offset + |out|) ==> SliceOf(f.fs, ino, offset, out)
  {
    hide Valid, FileBlocks, Contents, Fetched, SliceOf, BlocksFor, MiddleOk;
    out := [];
    var size := f.fs.inodes[ino].size;
    if len == 0 || offset >= size {
      NothingFetched(f.fs, ino, BlocksFor(offset), offset / BLKSIZE, offset);
      NothingRead(f.fs, ino, offset);
      return;
    }

    var endpos := if offset + len > size then size else offset + len;
    Geometry(offset, endpos, size);
    ghost var k, m := BlocksFor(offset), endpos / BLKSIZE;
    NothingFetched(f.fs, ino, k, m, offset);
    var blkno, blkoff, blkend := offset / BLKSIZE, offset % BLKSIZE, endpos % BLKSIZE;
    var nblks := endpos / BLKSIZE - blkno;
    var single := false;
    if blkoff > 0 {
      var blklen := if nblks > 0 then BLKSIZE - blkoff else endpos - offset;
      out := ReadPart(f, ino, blkno, blkoff, blklen, k, m);
      blkno := blkno + 1;
      if nblks > 0 {
        nblks := nblks - 1;
      } else {
        single := true;
      }
    }
    if nblks > 0 {
      var chunk := ReadBlocks(f, ino, blkno, nblks);
      FetchedBoth(f.fs, ino, k, m, offset, out, chunk);
      out := out + chunk;
    }
    if !single && blkend > 0 {
      var chunk := ReadPart(f, ino, endpos / BLKSIZE, 0, blkend, k, m);
      FetchedBoth(f.fs, ino, k, m, offset, out, chunk);
      out := out + chunk;
    }
    if MiddleOk(f.fs, ino, offset, offset + |out|) {
      FetchedSlice(f.fs, ino, offset, out);
    }
  }

  lemma NothingRead(s: Fs, ino: nat, start: nat)
    ensures SliceOf(s, ino, start, [])
  {}

  /** What was written is what is read back. */
  method WriteThenRead(f: FileSystem, ino: nat, offset: nat, buf: seq<Byte>) returns (ok: bool, out: seq<Byte>)
    requires f.Ok() && FileOk(f.fs, ino) && offset <= f.fs.inodes[ino].size
    requires offset + |buf| <= MAXBLOCKS * BLKSIZE && MiddleOk(f.fs, ino, offset, offset + |buf|)
    modifies f`fs, f.freemap.map_
    ensures f.Ok() && (ok ==> out == buf) && (|buf| > 0 ==> (ok <==> Fits(old(f.fs), ino, offset + |buf|)))
  {
    hide Valid, OthersSame, Need, Contents;
    ghost var s := f.fs;
    ok := Write(f, ino, offset, buf);
    if !ok {
      return false, [];
    }
    MiddleKept(s, f.fs, ino, offset, offset + |buf|);
    out := Read(f, ino, offset, |buf|);
    forall i | 0 <= i < |buf| ensures out[i] == buf[i] {
      assert Shows(f.fs, ino, offset, out, offset + i) && WrittenByte(s, f.fs, ino, offset, buf, offset + i);
    }
  }

  lemma MiddleKept(s: Fs, r: Fs, ino: nat, offset: nat, endpos: nat)
    requires MiddleOk(s, ino, offset, endpos) && ino in s.inodes && ino in r.inodes
    requires FileBlocks(s, ino) <= FileBlocks(r, ino)
    ensures MiddleOk(r, ino, offset, endpos)
  {
    hide At;
    assert |FileBlocks(s, ino)| == s.inodes[ino].blocks && |FileBlocks(r, ino)| == r.inodes[ino].blocks;
  }

  // --- several whole blocks in one request ---

  /** The contents of these blocks, one behind the other */
  function Contents(s: Fs, blocks: seq<nat>): seq<Byte> {
    if blocks == [] then [] else Contents(s, blocks[..|blocks| - 1]) + s.Block(blocks[|blocks| - 1])
  }

  /** The blocks sfs_rblock goes through: it counts up on the disk, not along the file */
  function Consecutive(b: nat, n: nat): (r: seq<nat>)
    ensures |r| == n && forall j | 0 <= j < n :: r[j] == b + j
  {
    seq(n, j requires 0 <= j < n => b + j)
  }

  lemma {:induction false} ContentsAt(s: Fs, blocks: seq<nat>, j: nat)
    requires j < |blocks|
    ensures |Contents(s, blocks)| == |blocks| * BLKSIZE && Contents(s, blocks)[j * BLKSIZE] == s.Block(blocks[j])[0]
    decreases |blocks|
  {
    if |blocks| > 1 {
      ContentsAt(s, blocks[..|blocks| - 1], if j < |blocks| - 1 then j else 0);
    }
  }

  /** sfs_rblock on the first of these blocks gives the contents of all of them. */
  ghost predicate ReadAtOnce(s: Fs, blocks: seq<nat>)
    requires |blocks| > 0
  {
    Contents(s, Consecutive(blocks[0], |blocks|)) == Contents(s, blocks)
  }

  /**
    The middle part of sfs_io_nolock asks sfs_bmap_load_nolock for the first of its whole blocks alone. That reads the
    file for whatever the disk holds exactly when the file's blocks follow each other on the disk.
    */
  lemma WholeBlocksIff(s: Fs, blocks: seq<nat>)
    requires |blocks| > 0
    ensures (forall disk: map<nat, Raw> :: ReadAtOnce(s.(disk := disk), blocks)) <==>
              blocks == Consecutive(blocks[0], |blocks|)
  {
    if blocks != Consecutive(blocks[0], |blocks|) {
      var j :| 0 <= j < |blocks| && blocks[j] != blocks[0] + j;
      var disk := Scattered(s, blocks, j);
    }
  }

  /** A disk on which one block is all ones and the others all zeros shows the difference. */
  lemma Scattered(s: Fs, blocks: seq<nat>, j: nat) returns (disk: map<nat, Raw>)
    requires j < |blocks| && blocks[j] != blocks[0] + j
    ensures !ReadAtOnce(s.(disk := disk), blocks)
  {
    hide Contents, Consecutive;
    disk := map[blocks[0] + j := seq(BLKSIZE, _ => 1)];
    ContentsAt(s.(disk := disk), blocks, j);
    ContentsAt(s.(disk := disk), Consecutive(blocks[0], |blocks|), j);
  }

  // --- writing several whole blocks in one request ---

  /** sfs_wblock on the first of these blocks puts the data into all of them. */
  ghost predicate WrittenAtOnce(s: Fs, blocks: seq<nat>, data: seq<Raw>)
    requires |data| == |blocks| > 0
  {
    forall i | 0 <= i < |blocks| :: PutBlocks(s, blocks[0], data).Block(blocks[i]) == data[i]
  }

  lemma {:induction false} PutBlocksAt(s: Fs, b: nat, data: seq<Raw>, x: nat)
    ensures PutBlocks(s, b, data).Block(x) == if b <= x < b + |data| then data[x - b] else s.Block(x)
    decreases |data|
  {
    if data != [] {
      PutBlocksAt(s, b, data[..|data| - 1], x);
    }
  }

  /** Whatever is written reaches the file's blocks exactly when they follow each other on the disk. */
  lemma WholeBlocksWriteIff(s: Fs, blocks: seq<nat>)
    requires |blocks| > 0
    ensures (forall data: seq<Raw> | |data| == |blocks| :: WrittenAtOnce(s, blocks, data)) <==>
              blocks == Consecutive(blocks[0], |blocks|)
  {
    hide PutBlocks;
    if blocks != Consecutive(blocks[0], |blocks|) {
      var j :| 0 <= j < |blocks| && blocks[j] != blocks[0] + j;
      var data := Misplaced(s, blocks, j);
    } else {
      forall data: seq<Raw>, i | |data| == |blocks| && 0 <= i < |blocks|
        ensures PutBlocks(s, blocks[0], data).Block(blocks[i]) == data[i]
      {
        PutBlocksAt(s, blocks[0], data, blocks[i]);
      }
    }
  }

  /** A block that is out of place keeps what it held, or gets what was meant for another. */
  lemma Misplaced(s: Fs, blocks: seq<nat>, j: nat) returns (data: seq<Raw>)
    requires j < |blocks| && blocks[j] != blocks[0] + j
    ensures |data| == |blocks| && !WrittenAtOnce(s, blocks, data)
  {
    hide PutBlocks;
    var v: Byte := if s.Block(blocks[j])[0] == 1 then 2 else 1;
    var raw: Raw := seq<Byte>(BLKSIZE, _ => v);
    var zero: Raw := ZeroBytes();
    data := seq<Raw>(|blocks|, i => if i == j then raw else zero);
    PutBlocksAt(s, blocks[0], data, blocks[j]);
    assert raw[0] == v && data[j][0] == v;
    assert PutBlocks(s, blocks[0], data).Block(blocks[j])[0] != v;
  }

  // --- a disk on which it goes wrong ---

  /** One file, with its inode in block 1, whose first block is block 3 and second block 2; block 4 is free. */
  function SwappedDisk(): Fs {
    Fs([false, false, false, false, true], 1,
       map[1 := Inode(2 * BLKSIZE, 2, Zeros(NDIRECT)[0 := 3][1 := 2], 0, 0)], map[2 := seq(BLKSIZE, _ => 1)])
  }

  lemma SwappedAt(slot: Slot)
    ensures At(SwappedDisk(), slot) == if slot == Direct(1, 0) then 3 else if slot == Direct(1, 1) then 2 else 0
  {}

  lemma SwappedDiskValid()
    ensures Valid(SwappedDisk(), {0, 1}) && FileOk(SwappedDisk(), 1) && FileBlocks(SwappedDisk(), 1) == [3, 2]
  {
    var s := SwappedDisk();
    CountRange(s.free, 4, 5);
    forall slot ensures At(s, slot) == if slot == Direct(1, 0) then 3 else if slot == Direct(1, 1) then 2 else 0 {
      SwappedAt(slot);
    }
    hide At, CountTrue;
    assert At(s, Direct(1, 0)) == 3 && At(s, Direct(1, 1)) == 2;
    assert Owned(s, {0, 1});
    forall i: nat | i < MAXFILE ensures At(s, FileSlot(1, i)) != 0 <==> i < 2 {}
  }

  /** Reading that file in one request gives block 3 and block 4, not block 3 and block 2. */
  method SwappedBlocksMisread() returns (f: FileSystem, out: seq<Byte>)
    ensures f.fs == SwappedDisk() && f.Ok() && FileOk(f.fs, 1)
    ensures |out| == f.fs.inodes[1].size == 2 * BLKSIZE && !SliceOf(f.fs, 1, 0, out)
  {
    hide Valid;
    SwappedDiskValid();
    f := new FileSystem(SwappedDisk(), {0, 1});
    out := Read(f, 1, 0, 2 * BLKSIZE);
    assert Fetches(f.fs, 1, 0, 2, 0, out, BLKSIZE);
    assert out[BLKSIZE] == 0 && ByteAt(f.fs, 1, BLKSIZE) == 1;
    assert !Shows(f.fs, 1, 0, out, BLKSIZE);
  }
}
