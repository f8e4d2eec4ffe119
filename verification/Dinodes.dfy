/** Inodes and their layout on disk (struct dinode in fs.h): 64 bytes each, eight to a block. */
module Dinodes {
  import opened Blocks

  const IPB: nat := 8     // inodes per block: BSIZE / sizeof(struct dinode)
  const ADDRS: nat := 8   // NDIRECT + 1

  type uint16 = x: int | 0 <= x < 0x1_0000

  /** What fits in userid with its terminator. */
  type UserId = s: seq<byte> | |s| < 16 && 0 !in s witness []

  datatype Inode = Inode(typ: uint16, major: uint16, minor: uint16, nlink: uint16, size: uint32, addrs: seq<uint32>,
                         userid: UserId, mode: uint32)

  /** The bytes of entry j of a block. */
  ghost predicate SameEntry(b: Block, b': Block, j: nat)
    requires j < IPB
  {
    forall k :: 64 * j <= k < 64 * j + 64 ==> b'[k] == b[k]
  }

  // ---- reading ----

  /** strcpy out of a field of n bytes and its terminator. */
  function CString(b: Block, at: nat, n: nat): (s: UserId)
    requires n < 16 && at + n <= BSIZE
    ensures |s| <= n
    decreases n
  {
    if n == 0 || b[at] == 0 then [] else [b[at]] + CString(b, at + 1, n - 1)
  }

  /** n words from position `at` on. */
  function WordsAt(b: Block, at: nat, n: nat): (a: seq<uint32>)
    requires at + n <= WORDS
    ensures |a| == n && forall k :: 0 <= k < n ==> a[k] == Word(b, at + k)
  {
    if n == 0 then [] else WordsAt(b, at, n - 1) + [Word(b, at + n - 1)]
  }

  /** The inode that ilock reads from entry j. */
  function Decode(b: Block, j: nat): (ino: Inode)
    requires j < IPB
    ensures |ino.addrs| == ADDRS
  {
    var w, v := Word(b, 16 * j), Word(b, 16 * j + 1);
    Inode(w % 0x1_0000, w / 0x1_0000, v % 0x1_0000, v / 0x1_0000, Word(b, 16 * j + 2),
          WordsAt(b, 16 * j + 3, ADDRS), CString(b, 64 * j + 44, 15), Word(b, 16 * j + 15))
  }

  lemma {:induction false} CStringSame(b: Block, b': Block, at: nat, n: nat)
    requires n < 16 && at + n <= BSIZE && forall k :: at <= k < at + n ==> b'[k] == b[k]
    ensures CString(b', at, n) == CString(b, at, n)
    decreases n
  {
    if n > 0 {
      CStringSame(b, b', at + 1, n - 1);
    }
  }

  /** An inode is read from its own 64 bytes. */
  lemma DecodeSame(b: Block, b': Block, j: nat)
    requires j < IPB && SameEntry(b, b', j)
    ensures Decode(b', j) == Decode(b, j)
  {
    CStringSame(b, b', 64 * j + 44, 15);
    forall w | 16 * j <= w < 16 * j + 16 ensures Word(b', w) == Word(b, w) {
    }
    assert Decode(b', j).addrs == Decode(b, j).addrs;
  }

  /** The bytes of a little-endian number. */
  ghost predicate Number(d: seq<byte>, at: nat, n: nat, x: int)
    requires at + n <= |d|
    decreases n
  {
    if n == 0 then x == 0 else x % 0x100 == d[at] as int && Number(d, at + 1, n - 1, x / 0x100)
  }

  lemma WordIsNumber(b: Block, i: nat)
    requires i < WORDS
    ensures Number(b, 4 * i, 4, Word(b, i))
    ensures Number(b, 4 * i, 2, Word(b, i) % 0x1_0000) && Number(b, 4 * i + 2, 2, Word(b, i) / 0x1_0000)
  {
    hide Number;
    var at, b0: int, b1: int, b2: int, b3: int := 4 * i, b[4 * i], b[4 * i + 1], b[4 * i + 2], b[4 * i + 3];
    var lo, hi := b0 + 0x100 * b1, b2 + 0x100 * b3;
    assert Word(b, i) / 0x1_0000 == hi && Word(b, i) % 0x1_0000 == lo;
    NumberNone(b, at + 2);
    NumberNone(b, at + 4);
    NumberMore(b, at + 1, 0, b1, 0);
    NumberMore(b, at, 1, b0, b1);
    NumberMore(b, at + 3, 0, b3, 0);
    NumberMore(b, at + 2, 1, b2, b3);
    NumberMore(b, at + 1, 2, b1, hi);
    NumberMore(b, at, 3, b0, b1 + 0x100 * hi);
  }

  lemma {:induction false} NumberOnce(d: seq<byte>, at: nat, n: nat, x: int, y: int)
    requires at + n <= |d| && Number(d, at, n, x) && Number(d, at, n, y)
    ensures x == y
    decreases n
  {
    if n > 0 {
      NumberOnce(d, at + 1, n - 1, x / 0x100, y / 0x100);
    }
  }

  lemma NumberNone(d: seq<byte>, at: nat)
    requires at <= |d|
    ensures Number(d, at, 0, 0)
  {
  }

  lemma NumberMore(d: seq<byte>, at: nat, n: nat, low: nat, x: nat)
    requires at + 1 + n <= |d| && d[at] as int == low < 0x100 && Number(d, at + 1, n, x)
    ensures Number(d, at, n + 1, low + 0x100 * x)
  {
    var y := low + 0x100 * x;
    assert y % 0x100 == low && y / 0x100 == x;
  }

  /** struct dinode, byte by byte: four 16-bit fields, the size, eight block numbers, the owner as a string of at most 15
      characters, and the mode. */
  lemma DinodeBytes(b: Block, j: nat)
    requires j < IPB
    ensures var ino, at := Decode(b, j), 64 * j;
      && Number(b, at, 2, ino.typ) && Number(b, at + 2, 2, ino.major) && Number(b, at + 4, 2, ino.minor)
      && Number(b, at + 6, 2, ino.nlink) && Number(b, at + 8, 4, ino.size)
      && (forall k :: 0 <= k < 8 ==> Number(b, at + 12 + 4 * k, 4, ino.addrs[k]))
      && b[at + 44..at + 44 + |ino.userid|] == ino.userid && (|ino.userid| < 15 ==> b[at + 44 + |ino.userid|] == 0)
      && Number(b, at + 60, 4, ino.mode)
  {
    hide Word, Number, CString;
    WordIsNumber(b, 16 * j);
    WordIsNumber(b, 16 * j + 1);
    WordIsNumber(b, 16 * j + 2);
    WordIsNumber(b, 16 * j + 15);
    forall k | 0 <= k < 8 ensures Number(b, 64 * j + 12 + 4 * k, 4, Decode(b, j).addrs[k]) {
      WordIsNumber(b, 16 * j + 3 + k);
    }
    CStringIs(b, 64 * j + 44, 15);
  }

  lemma {:induction false} CStringIs(b: Block, at: nat, n: nat)
    requires n < 16 && at + n <= BSIZE
    ensures var s := CString(b, at, n); b[at..at + |s|] == s && (|s| < n ==> b[at + |s|] == 0)
    decreases n
  {
    if n > 0 && b[at] != 0 {
      CStringIs(b, at + 1, n - 1);
    }
  }

  // ---- writing ----

  /** strcpy: the string and its terminator; what is behind them stays. */
  function PutString(b: Block, at: nat, s: UserId): (r: Block)
    requires at + 16 <= BSIZE
    ensures forall k :: 0 <= k < BSIZE && !(at <= k < at + 16) ==> r[k] == b[k]
  {
    b[..at] + s + [0] + b[at + |s| + 1..]
  }

  function PutAddrs(b: Block, at: nat, addrs: seq<uint32>, n: nat): (r: Block)
    requires n <= |addrs| && at + n <= WORDS
    decreases n
  {
    if n == 0 then b else PutWord(PutAddrs(b, at, addrs, n - 1), at + n - 1, addrs[n - 1])
  }

  /** The block after iupdate of entry j. */
  function Encode(b: Block, j: nat, ino: Inode): Block
    requires j < IPB && |ino.addrs| == ADDRS
  {
    var b1 := PutWord(b, 16 * j, ino.typ + 0x1_0000 * ino.major);
    var b2 := PutWord(b1, 16 * j + 1, ino.minor + 0x1_0000 * ino.nlink);
    var b3 := PutWord(b2, 16 * j + 2, ino.size);
    var b4 := PutString(b3, 64 * j + 44, ino.userid);
    var b5 := PutWord(b4, 16 * j + 15, ino.mode);
    PutAddrs(b5, 16 * j + 3, ino.addrs, ADDRS)
  }

  ghost predicate SameBytesOutside(b: Block, b': Block, lo: nat, hi: nat) {
    forall k :: 0 <= k < BSIZE && !(lo <= k < hi) ==> b'[k] == b[k]
  }

  lemma PutWordOutside(b: Block, i: nat, w: uint32)
    requires i < WORDS
    ensures SameBytesOutside(b, PutWord(b, i, w), 4 * i, 4 * i + 4)
  {
  }

  lemma {:induction false} PutAddrsOutside(b: Block, at: nat, addrs: seq<uint32>, n: nat)
    requires n <= |addrs| && at + n <= WORDS
    ensures SameBytesOutside(b, PutAddrs(b, at, addrs, n), 4 * at, 4 * (at + n))
    decreases n
  {
    if n > 0 {
      PutAddrsOutside(b, at, addrs, n - 1);
      PutWordOutside(PutAddrs(b, at, addrs, n - 1), at + n - 1, addrs[n - 1]);
    }
  }

  lemma WordOutside(b: Block, b': Block, lo: nat, hi: nat, i: nat)
    requires SameBytesOutside(b, b', lo, hi) && i < WORDS && (4 * i + 4 <= lo || hi <= 4 * i)
    ensures Word(b', i) == Word(b, i)
  {
  }

  lemma {:induction false} WordOfPutAddrs(b: Block, at: nat, addrs: seq<uint32>, n: nat, k: nat)
    requires n <= |addrs| && at + n <= WORDS && k < n
    ensures Word(PutAddrs(b, at, addrs, n), at + k) == addrs[k]
    decreases n
  {
    WordOfPutWord(PutAddrs(b, at, addrs, n - 1), at + n - 1, addrs[n - 1], at + k);
    if k < n - 1 {
      WordOfPutAddrs(b, at, addrs, n - 1, k);
    }
  }

  lemma {:induction false} CStringOfPut(b: Block, at: nat, s: UserId, m: nat)
    requires at + 16 <= BSIZE && m <= |s|
    ensures CString(PutString(b, at, s), at + m, 15 - m) == s[m..]
    decreases |s| - m
  {
    var r := PutString(b, at, s);
    if m < |s| {
      assert r[at + m] == s[m];
      CStringOfPut(b, at, s, m + 1);
    } else {
      assert r[at + m] == 0;
    }
  }

  /** iupdate writes only the inode's own 64 bytes. */
  lemma EncodeOutside(b: Block, j: nat, ino: Inode)
    requires j < IPB && |ino.addrs| == ADDRS
    ensures SameBytesOutside(b, Encode(b, j, ino), 64 * j, 64 * j + 64)
  {
    hide PutWord, PutString, PutAddrs;
    var b1 := PutWord(b, 16 * j, ino.typ + 0x1_0000 * ino.major);
    var b2 := PutWord(b1, 16 * j + 1, ino.minor + 0x1_0000 * ino.nlink);
    var b3 := PutWord(b2, 16 * j + 2, ino.size);
    var b4 := PutString(b3, 64 * j + 44, ino.userid);
    var b5 := PutWord(b4, 16 * j + 15, ino.mode);
    PutWordOutside(b, 16 * j, ino.typ + 0x1_0000 * ino.major);
    PutWordOutside(b1, 16 * j + 1, ino.minor + 0x1_0000 * ino.nlink);
    PutWordOutside(b2, 16 * j + 2, ino.size);
    PutWordOutside(b4, 16 * j + 15, ino.mode);
    PutAddrsOutside(b5, 16 * j + 3, ino.addrs, ADDRS);
  }

  /** What iupdate writes, ilock reads. */
  lemma DecodeOfEncode(b: Block, j: nat, ino: Inode)
    requires j < IPB && |ino.addrs| == ADDRS
    ensures Decode(Encode(b, j, ino), j) == ino
  {
    hide Word, PutWord, PutString, PutAddrs, CString;
    var w: uint32, v: uint32 := ino.typ + 0x1_0000 * ino.major, ino.minor + 0x1_0000 * ino.nlink;
    var b1 := PutWord(b, 16 * j, w);
    var b2 := PutWord(b1, 16 * j + 1, v);
    var b3 := PutWord(b2, 16 * j + 2, ino.size);
    var b4 := PutString(b3, 64 * j + 44, ino.userid);
    var b5 := PutWord(b4, 16 * j + 15, ino.mode);
    var r := PutAddrs(b5, 16 * j + 3, ino.addrs, ADDRS);
    FixedWords(b, 16 * j, w, v, ino.size);
    assert SameBytesOutside(b3, b4, 64 * j + 44, 64 * j + 60);
    WordOfPutWord(b4, 16 * j + 15, ino.mode, 16 * j + 15);
    PutWordOutside(b4, 16 * j + 15, ino.mode);
    PutAddrsOutside(b5, 16 * j + 3, ino.addrs, ADDRS);
    forall i | i in [16 * j, 16 * j + 1, 16 * j + 2] ensures Word(r, i) == Word(b3, i) {
      WordOutside(b3, b4, 64 * j + 44, 64 * j + 60, i);
      WordOutside(b4, b5, 64 * j + 60, 64 * j + 64, i);
      WordOutside(b5, r, 64 * j + 12, 64 * j + 44, i);
    }
    WordOutside(b5, r, 64 * j + 12, 64 * j + 44, 16 * j + 15);
    CStringOfPut(b3, 64 * j + 44, ino.userid, 0);
    CStringSame(b4, r, 64 * j + 44, 15);
    forall k | 0 <= k < ADDRS ensures Word(r, 16 * j + 3 + k) == ino.addrs[k] {
      WordOfPutAddrs(b5, 16 * j + 3, ino.addrs, ADDRS, k);
    }
    assert WordsAt(r, 16 * j + 3, ADDRS) == ino.addrs;
    Halves(ino.typ, ino.major);
    Halves(ino.minor, ino.nlink);
  }

  lemma FixedWords(b: Block, at: nat, w: uint32, v: uint32, size: uint32)
    requires at + 2 < WORDS
    ensures var r := PutWord(PutWord(PutWord(b, at, w), at + 1, v), at + 2, size);
            Word(r, at) == w && Word(r, at + 1) == v && Word(r, at + 2) == size
  {
    hide Word, PutWord;
    var b1 := PutWord(b, at, w);
    var b2 := PutWord(b1, at + 1, v);
    WordOfPutWord(b, at, w, at);
    WordOfPutWord(b1, at + 1, v, at);
    WordOfPutWord(b1, at + 1, v, at + 1);
    WordOfPutWord(b2, at + 2, size, at);
    WordOfPutWord(b2, at + 2, size, at + 1);
    WordOfPutWord(b2, at + 2, size, at + 2);
  }

  lemma Halves(lo: uint16, hi: uint16)
    ensures (lo + 0x1_0000 * hi) % 0x1_0000 == lo && (lo + 0x1_0000 * hi) / 0x1_0000 == hi
  {
  }

  // ---- the inode area ----

  /** Inode i of a disk whose inode blocks start at inodestart (IBLOCK). */
  function InodeAt(inodestart: nat, blocks: seq<Block>, i: nat): (ino: Inode)
    ensures |ino.addrs| == ADDRS
  {
    var n := inodestart + i / IPB;
    Decode(if n < |blocks| then blocks[n] else Zeroes(), i % IPB)
  }

  /** Inode i is the (i % 8)-th of the eight in block inodestart + i / 8. */
  lemma InodeOnDisk(inodestart: nat, blocks: seq<Block>, i: nat)
    requires inodestart + i / 8 < |blocks|
    ensures var ino, b, at := InodeAt(inodestart, blocks, i), blocks[inodestart + i / 8], 64 * (i % 8);
      && Number(b, at, 2, ino.typ) && Number(b, at + 6, 2, ino.nlink) && Number(b, at + 8, 4, ino.size)
      && (forall k :: 0 <= k < 8 ==> Number(b, at + 12 + 4 * k, 4, ino.addrs[k]))
  {
    hide Decode, Number;
    DinodeBytes(blocks[inodestart + i / 8], i % 8);
  }

  function InodesOf(inodestart: nat, n: nat, blocks: seq<Block>): (inodes: seq<Inode>)
    ensures |inodes| == n
    ensures forall i :: 0 <= i < n ==> |inodes[i].addrs| == ADDRS
  {
    seq(n, i requires 0 <= i < n => InodeAt(inodestart, blocks, i))
  }

  /** The inodes are read from the inode area only. */
  lemma InodesSame(inodestart: nat, n: nat, blocks: seq<Block>, blocks': seq<Block>)
    requires |blocks'| == |blocks|
    requires forall b :: inodestart <= b <= inodestart + n / IPB && b < |blocks| ==> blocks'[b] == blocks[b]
    ensures InodesOf(inodestart, n, blocks') == InodesOf(inodestart, n, blocks)
  {
    hide Decode;
    forall i | 0 <= i < n ensures InodeAt(inodestart, blocks', i) == InodeAt(inodestart, blocks, i) {
      assert i / IPB <= n / IPB;
    }
  }

  /** After iupdate the disk holds the new inode i and every other inode as before. */
  lemma InodesAfter(inodestart: nat, n: nat, blocks: seq<Block>, i: nat, ino: Inode)
    requires i < n && inodestart + i / IPB < |blocks| && |ino.addrs| == ADDRS
    ensures var b := inodestart + i / IPB;
            InodesOf(inodestart, n, blocks[b := Encode(blocks[b], i % IPB, ino)]) == InodesOf(inodestart, n, blocks)[i := ino]
  {
    hide Decode, Encode, SameBytesOutside, SameEntry;
    var b := inodestart + i / IPB;
    var blocks' := blocks[b := Encode(blocks[b], i % IPB, ino)];
    forall k | 0 <= k < n
      ensures InodeAt(inodestart, blocks', k) == if k == i then ino else InodeAt(inodestart, blocks, k)
    {
      if k == i {
        DecodeOfEncode(blocks[b], i % IPB, ino);
      } else if k / IPB == i / IPB {
        EntryKept(blocks[b], i % IPB, ino, k % IPB);
      }
    }
  }

  lemma EntryKept(b: Block, j: nat, ino: Inode, k: nat)
    requires j < IPB && k < IPB && k != j && |ino.addrs| == ADDRS
    ensures Decode(Encode(b, j, ino), k) == Decode(b, k)
  {
    hide Decode, Encode;
    EncodeOutside(b, j, ino);
    DecodeSame(b, Encode(b, j, ino), k);
  }
}
