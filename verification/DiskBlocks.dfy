/** A disk block of the simple file system: 4096 bytes, which an index block holds as 1024 little-endian words. */
module DiskBlocks {

  const BLKSIZE: nat := 4096
  const NENTRY: nat := 1024

  /** Block numbers are 32-bit words. */
  const WORD_LIMIT: nat := 0x1_0000_0000

  type Byte = b: int | 0 <= b < 0x100 witness 0

  function ZeroBytes(): (z: seq<Byte>)
    ensures |z| == BLKSIZE && forall i | 0 <= i < BLKSIZE :: z[i] == 0
  {
    seq(BLKSIZE, _ => 0)
  }

  type Raw = b: seq<Byte> | |b| == BLKSIZE witness ZeroBytes()

  /** Word i of an index block */
  function WordAt(raw: Raw, i: nat): (w: nat)
    requires i < NENTRY
  {
    var a: int, b: int, c: int, d: int := raw[4 * i], raw[4 * i + 1], raw[4 * i + 2], raw[4 * i + 3];
    a + b * 0x100 + c * 0x1_0000 + d * 0x100_0000
  }

  function SetWord(raw: Raw, i: nat, w: nat): Raw
    requires i < NENTRY && w < WORD_LIMIT
  {
    var low := raw[4 * i := w % 0x100][4 * i + 1 := w / 0x100 % 0x100];
    low[4 * i + 2 := w / 0x1_0000 % 0x100][4 * i + 3 := w / 0x100_0000]
  }

  lemma SetWordAt(raw: Raw, i: nat, w: nat, j: nat)
    requires i < NENTRY && w < WORD_LIMIT && j < NENTRY
    ensures WordAt(SetWord(raw, i, w), j) == if j == i then w else WordAt(raw, j)
  {
    if j == i {
      BytesOf(w);
    }
  }

  lemma BytesOf(w: nat)
    ensures w % 0x100 + w / 0x100 % 0x100 * 0x100 + w / 0x1_0000 % 0x100 * 0x1_0000 + w / 0x100_0000 * 0x100_0000 == w
  {
    assert w / 0x100 / 0x100 == w / 0x1_0000 && w / 0x1_0000 / 0x100 == w / 0x100_0000;
  }
}
