/** Disk blocks as byte sequences, and the little-endian word view that the kernel
    takes of them with casts such as `(uint*)bp->data` (fs.h, log.c, fs.c). */
module Blocks {

  const BSIZE: nat := 512
  const WORDS: nat := 128  // 32-bit words in a block: BSIZE / 4

  type byte = x: int | 0 <= x < 0x100
  type uint32 = x: int | 0 <= x < 0x1_0000_0000
  type Block = b: seq<byte> | |b| == BSIZE witness seq(BSIZE, _ => 0)

  /** A block of zero bytes. */
  function Zeroes(): Block {
    seq(BSIZE, _ => 0)
  }

  const MAXOPBLOCKS: nat := 10  // the blocks one file system operation may write

  ghost predicate Distinct(s: seq<nat>) {
    forall i, j :: 0 <= i < j < |s| ==> s[i] != s[j]
  }

  datatype Option<+T> = None | Some(value: T)

  /** One block write that reached the disk. */
  datatype Write = Write(blockno: nat, data: Block)

  /** The i-th little-endian 32-bit word of a block. */
  function Word(b: Block, i: nat): (w: uint32)
    requires i < WORDS
  {
    var b0: int, b1: int, b2: int, b3: int := b[4 * i], b[4 * i + 1], b[4 * i + 2], b[4 * i + 3];
    b0 + 0x100 * b1 + 0x1_0000 * b2 + 0x100_0000 * b3
  }

  /** Store a 32-bit word, byte by byte. */
  function PutWord(b: Block, i: nat, w: uint32): (r: Block)
    requires i < WORDS
  {
    b[4 * i := w % 0x100]
     [4 * i + 1 := w / 0x100 % 0x100]
     [4 * i + 2 := w / 0x1_0000 % 0x100]
     [4 * i + 3 := w / 0x100_0000]
  }

  /** A word reads back what was stored in it, and storing disturbs no other word. */
  lemma WordOfPutWord(b: Block, i: nat, w: uint32, j: nat)
    requires i < WORDS && j < WORDS
    ensures Word(PutWord(b, i, w), j) == if i == j then w else Word(b, j)
  {
    if i == j {
      SplitWord(w);
    }
  }

  lemma SplitWord(w: uint32)
    ensures w == w % 0x100 + 0x100 * (w / 0x100 % 0x100) + 0x1_0000 * (w / 0x1_0000 % 0x100) + 0x100_0000 * (w / 0x100_0000)
  {
    var a, b := w / 0x100, w / 0x1_0000;
    assert w == w % 0x100 + 0x100 * a;
    assert a == a % 0x100 + 0x100 * b;
    assert b == b % 0x100 + 0x100 * (w / 0x100_0000);
  }

  lemma WordOfZero(i: nat)
    requires i < WORDS
    ensures Word(Zeroes(), i) == 0
  {
  }
}
