/** The free-block bitmap (balloc and bfree in fs.c). */
module Bitmap {
  import opened Blocks

  const BPB: nat := 4096  // bitmap bits per block: BSIZE * 8

  /** The parts of the superblock the allocator uses; data blocks start at `data`. */
  datatype Layout = Layout(size: nat, bmap: nat, data: nat) {
    /** The bitmap blocks lie below the data blocks and cover the whole disk. */
    ghost predicate Valid(blocks: seq<Block>) {
      && 0 < bmap < data <= size == |blocks| < 0x1_0000_0000
      && bmap + (size - 1) / BPB < data
    }
  }

  // ---- bits of a byte ----

  /** (x & (1 << k)) != 0 */
  predicate Bit(x: nat, k: nat) {
    if k == 0 then x % 2 == 1 else Bit(x / 2, k - 1)
  }

  /** x | (1 << k), or x & ~(1 << k) */
  function WithBit(x: nat, k: nat, on: bool): nat {
    if k == 0 then x / 2 * 2 + (if on then 1 else 0) else WithBit(x / 2, k - 1, on) * 2 + x % 2
  }

  /** Setting or clearing a bit changes that bit only. */
  lemma {:induction false} BitOfWithBit(x: nat, k: nat, on: bool, j: nat)
    ensures Bit(WithBit(x, k, on), j) == if j == k then on else Bit(x, j)
  {
    if k > 0 && j > 0 {
      BitOfWithBit(x / 2, k - 1, on, j - 1);
    }
  }

  function Pow2(n: nat): nat {
    if n == 0 then 1 else 2 * Pow2(n - 1)
  }

  /** Bit k of a number is worth 2^k. */
  lemma {:induction false} BitValue(x: nat, k: nat)
    ensures Pow2(k) > 0 && (Bit(x, k) <==> x / Pow2(k) % 2 == 1)
  {
    if k > 0 {
      BitValue(x / 2, k - 1);
      DivTwice(x, Pow2(k - 1));
    }
  }

  lemma DivTwice(x: nat, p: nat)
    requires p > 0
    ensures x / 2 / p == x / (2 * p)
  {
    var h := x / 2;
    var q, r := h / p, h % p;
    assert h == q * p + r && x == 2 * h + x % 2;
    assert x == q * (2 * p) + (2 * r + x % 2);
    Quotient(x, 2 * p, q, 2 * r + x % 2);
  }

  lemma Quotient(x: nat, d: nat, q: nat, r: nat)
    requires d > 0 && x == q * d + r && r < d
    ensures x / d == q
  {
    var q', r' := x / d, x % d;
    assert x == q' * d + r';
    assert q' < q ==> (q' + 1) * d <= q * d;
    assert q' > q ==> (q + 1) * d <= q' * d;
  }

  lemma {:induction false} WithBitBound(x: nat, k: nat, on: bool, n: nat)
    requires k < n && x < Pow2(n)
    ensures WithBit(x, k, on) < Pow2(n)
  {
    var half := Pow2(n - 1);
    assert Pow2(n) == 2 * half && x / 2 < half;
    if k > 0 {
      WithBitBound(x / 2, k - 1, on, n - 1);
      assert WithBit(x, k, on) == WithBit(x / 2, k - 1, on) * 2 + x % 2;
    }
  }

  function ByteWithBit(x: byte, k: nat, on: bool): (y: byte)
    requires k < 8
  {
    assert Pow2(8) == 0x100 by { assert Pow2(4) == 16; }
    WithBitBound(x, k, on, 8);
    WithBit(x, k, on)
  }

  // ---- the bitmap on disk ----

  /** BBLOCK(b, sb) */
  function BitBlock(l: Layout, b: nat): nat {
    l.bmap + b / BPB
  }

  /** Block b is marked in use. */
  predicate InUse(l: Layout, blocks: seq<Block>, b: nat)
    requires BitBlock(l, b) < |blocks|
  {
    MarkedIn(blocks[BitBlock(l, b)], b % BPB)
  }

  /** data[bi/8] |= m, or data[bi/8] &= ~m, with m = 1 << (bi % 8) */
  function MarkIn(data: Block, bi: nat, on: bool): Block
    requires bi < BPB
  {
    data[bi / 8 := ByteWithBit(data[bi / 8], bi % 8, on)]
  }

  /** (data[bi/8] & m) != 0 */
  predicate MarkedIn(data: Block, bi: nat)
    requires bi < BPB
  {
    Bit(data[bi / 8], bi % 8)
  }

  lemma MarkedInOfMarkIn(data: Block, bi: nat, on: bool, bj: nat)
    requires bi < BPB && bj < BPB
    ensures MarkedIn(MarkIn(data, bi, on), bj) == if bi == bj then on else MarkedIn(data, bj)
  {
    if bi / 8 == bj / 8 {
      BitOfWithBit(data[bi / 8], bi % 8, on, bj % 8);
    }
  }

  function Mark(l: Layout, blocks: seq<Block>, b: nat, on: bool): (r: seq<Block>)
    requires BitBlock(l, b) < |blocks|
    ensures |r| == |blocks| && forall n :: 0 <= n < |blocks| && n != BitBlock(l, b) ==> r[n] == blocks[n]
  {
    blocks[BitBlock(l, b) := MarkIn(blocks[BitBlock(l, b)], b % BPB, on)]
  }

  /** Where block b's bit is: 4096 blocks to a bitmap block, eight to a byte, the lowest bit first. */
  lemma InUseByte(l: Layout, blocks: seq<Block>, b: nat)
    requires BitBlock(l, b) < |blocks|
    ensures l.bmap + b / 4096 < |blocks| && Pow2(b % 8) > 0
    ensures InUse(l, blocks, b) <==> blocks[l.bmap + b / 4096][b % 4096 / 8] as int / Pow2(b % 8) % 2 == 1
  {
    hide Bit, Pow2;
    SameBit(b);
    BitValue(blocks[l.bmap + b / 4096][b % 4096 / 8], b % 8);
  }

  lemma SameBit(b: nat)
    ensures b % 4096 % 8 == b % 8
  {
  }

  /** Marking a block changes what the bitmap says of that block only. */
  lemma InUseOfMark(l: Layout, blocks: seq<Block>, b: nat, on: bool, c: nat)
    requires BitBlock(l, b) < |blocks| && BitBlock(l, c) < |blocks|
    ensures InUse(l, Mark(l, blocks, b, on), c) == if c == b then on else InUse(l, blocks, c)
  {
    if BitBlock(l, b) == BitBlock(l, c) {
      MarkedInOfMarkIn(blocks[BitBlock(l, b)], b % BPB, on, c % BPB);
      assert b == b / BPB * BPB + b % BPB && c == c / BPB * BPB + c % BPB;
    }
  }
}
