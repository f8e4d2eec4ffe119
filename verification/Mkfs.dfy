/** mkfs (mkfs.c): the image it builds is a file system in order. Blocks are handed out in ascending order and the
    bitmap is written last. */
module Mkfs {
  import opened Blocks
  import opened Bitmap
  import opened Dinodes
  import opened BlockMap
  import opened FileContents
  import opened FileTransactions
  import Files

  const FSSIZE: nat := 2000
  const NINODES: nat := 200
  const LOGSTART: nat := 2
  const NLOG: nat := 30         // LOGSIZE
  const INODESTART: nat := 32   // LOGSTART + NLOG
  const BMAPSTART: nat := 58    // INODESTART + NINODES / IPB + 1
  const NMETA: nat := 59        // BMAPSTART + FSSIZE / BPB + 1

  /** The superblock's numbers: the inode blocks lie between the log and the bitmap, and one bitmap block covers the disk. */
  lemma SuperBlock(blocks: seq<Block>)
    requires |blocks| == FSSIZE
    ensures var l := Layout(FSSIZE, BMAPSTART, NMETA);
            l.Valid(blocks) && l.size <= BPB && AreaBelow(l, INODESTART, NINODES) && LOGSTART + NLOG == INODESTART
  {
  }

  /** A bitmap block whose first n bits are set. */
  function Used(n: nat): Block
    requires n <= BPB
  {
    if n == 0 then Zeroes() else MarkIn(Used(n - 1), n - 1, true)
  }

  lemma {:induction false} UsedBits(n: nat, b: nat)
    requires n <= BPB && b < BPB
    ensures MarkedIn(Used(n), b) <==> b < n
  {
    if n > 0 {
      UsedBits(n - 1, b);
      MarkedInOfMarkIn(Used(n - 1), n - 1, true, b);
    } else {
      NoBits(b % 8);
    }
  }

  lemma {:induction false} NoBits(k: nat)
    ensures !Bit(0, k)
  {
    if k > 0 {
      NoBits(k - 1);
    }
  }

  /** The image as it will be once the bitmap is written. */
  ghost function Finished(l: Layout, blocks: seq<Block>, inodes: seq<Inode>, owner: map<nat, Slot>, n: nat): State
    requires l.bmap < |blocks| && n <= BPB
  {
    State(blocks[l.bmap := Used(n)], inodes, owner, {})
  }

  lemma FinishedBits(l: Layout, blocks: seq<Block>, n: nat, b: nat)
    requires l.Valid(blocks) && l.size <= BPB && n <= BPB && b < l.size
    ensures BitBlock(l, b) == l.bmap && (InUse(l, blocks[l.bmap := Used(n)], b) <==> b < n)
  {
    UsedBits(n, b);
  }

  /** Handing out the next block is what balloc would do on the finished image. */
  lemma NextBlock(l: Layout, blocks: seq<Block>, inodes: seq<Inode>, owner: map<nat, Slot>, n: nat)
    requires l.Valid(blocks) && l.size <= BPB && l.data <= n < l.size && blocks[n] == Zeroes()
    ensures BitBlock(l, n) == l.bmap && !InUse(l, Finished(l, blocks, inodes, owner, n).blocks, n)
    ensures Allocated(l, Finished(l, blocks, inodes, owner, n), n).blocks == Finished(l, blocks, inodes, owner, n + 1).blocks
  {
    FinishedBits(l, blocks, n, n);
    assert n % BPB == n;
  }

  /** Before anything is appended the image holds no file blocks. */
  lemma EmptyImage(l: Layout, blocks: seq<Block>, inodes: seq<Inode>)
    requires l.Valid(blocks) && l.size <= BPB && Unlinked(inodes)
    ensures l.data <= BPB && Inv(l, Finished(l, blocks, inodes, map[], l.data))
  {
    var st := Finished(l, blocks, inodes, map[], l.data);
    forall b | 0 <= b < l.size ensures InUse(l, st.blocks, b) <==> b < l.data {
      FinishedBits(l, blocks, l.data, b);
    }
    forall x | IsSlot(st, x) ensures Holds(st, x) == 0 {
      assert st.inodes[x.inum].addrs[NDIRECT] == 0;
    }
  }

  /** No inode has a block. */
  ghost predicate Unlinked(inodes: seq<Inode>) {
    forall i :: 0 <= i < |inodes| ==> |inodes[i].addrs| == NDIRECT + 1 && forall s :: 0 <= s <= NDIRECT ==> inodes[i].addrs[s] == 0
  }

  const NOADDRS: seq<uint32> := [0, 0, 0, 0, 0, 0, 0, 0]
  const BLANK: Inode := Inode(0, 0, 0, 0, 0, NOADDRS, [], 0)

  /** A zeroed inode block holds blank inodes. */
  lemma ZeroInode(j: nat)
    requires j < IPB
    ensures Decode(Zeroes(), j) == BLANK
  {
    forall w: nat | w < WORDS ensures Word(Zeroes(), w) == 0 {
      WordOfZero(w);
    }
    assert Decode(Zeroes(), j).addrs == NOADDRS;
  }

  /** The inode that ialloc writes: one link, owned by root, with all rights but writing for others. */
  function NewInode(typ: uint16): Inode {
    Inode(typ, 0, 0, 1, 0, NOADDRS, [114, 111, 111, 116], 61)
  }

  /** The inodes from n on have not been handed out. */
  ghost predicate BlankFrom(inodes: seq<Inode>, n: nat) {
    forall i :: n <= i < |inodes| ==> inodes[i] == BLANK
  }

  lemma NewInodeKeeps(l: Layout, st: State, i: nat, ino: Inode)
    requires Inv(l, st) && i < |st.inodes| && st.inodes[i].addrs == NOADDRS == ino.addrs
    ensures var st' := st.(inodes := st.inodes[i := ino]);
            Inv(l, st') && SameBytes(st, st')
  {
    hide InUse, Word;
    var st' := st.(inodes := st.inodes[i := ino]);
    assert SameHolds(st, st');
    OwnershipKept(l, st, st');
    BitmapKept(l, st, st');
  }

  class Image {
    const l: Layout
    const inodestart: nat
    const ninodes: nat
    var blocks: seq<Block>
    var inodes: seq<Inode>     // as rinode reads them and iappend changes them
    var freeblock: nat
    var freeinode: nat
    ghost var owner: map<nat, Slot>

    ghost predicate Shaped()
      reads this
    {
      l.Valid(blocks) && l.size <= BPB && l.data <= freeblock <= l.size
    }

    /** The file system this will be. */
    ghost function St(): State
      reads this
      requires Shaped()
    {
      Finished(l, blocks, inodes, owner, freeblock)
    }

    /** The inodes in the image. */
    ghost function Disk(): seq<Inode>
      reads this`blocks
    {
      InodesOf(inodestart, ninodes, blocks)
    }

    ghost predicate Valid()
      reads this
    {
      && Shaped() && Inv(l, St()) && (forall b :: freeblock <= b < l.size ==> blocks[b] == Zeroes())
      && AreaBelow(l, inodestart, ninodes) && |inodes| == ninodes && BlankFrom(inodes, freeinode)
      && forall b :: 2 <= b < inodestart ==> blocks[b] == Zeroes()
    }

    /** All sectors zero but the superblock. */
    constructor (l: Layout, inodestart: nat, ninodes: nat, sb: Block)
      requires l.Valid(seq(l.size, _ => Zeroes())) && l.size <= BPB && 1 < inodestart && AreaBelow(l, inodestart, ninodes)
      ensures Valid() && this.l == l && this.inodestart == inodestart && this.ninodes == ninodes
      ensures Disk() == inodes && BlankFrom(inodes, 0) && freeblock == l.data && freeinode == 1
    {
      var bs: seq<Block> := seq(l.size, _ => Zeroes());
      bs := bs[1 := sb];
      this.l, this.inodestart, this.ninodes, blocks := l, inodestart, ninodes, bs;
      inodes, freeblock, freeinode := InodesOf(inodestart, ninodes, bs), l.data, 1;
      owner := map[];
      new;
      forall i | 0 <= i < ninodes ensures inodes[i] == BLANK {
        assert i / IPB <= ninodes / IPB;
        ZeroInode(i % IPB);
      }
      EmptyImage(l, blocks, inodes);
    }

    /** winode */
    method Winode(i: nat)
      requires Valid() && i < |inodes|
      modifies this`blocks
      ensures Valid() && Disk() == old(Disk())[i := inodes[i]] && SameHolds(old(St()), St()) && SameBytes(old(St()), St())
    {
      hide Inv, InodesOf, Encode, SameHolds, SameBytes, BlankFrom;
      ghost var st := St();
      InvShape(l, st);
      var b := inodestart + i / IPB;
      assert i / IPB <= ninodes / IPB;
      InodesAfter(inodestart, ninodes, blocks, i, inodes[i]);
      blocks := blocks[b := Encode(blocks[b], i % IPB, inodes[i])];
      BelowBitmapKeeps(l, st, St().blocks);
      assert St() == st.(blocks := St().blocks);
    }

    /** ialloc: the next inode. mkfs does not check that there is one. */
    method Ialloc(typ: uint16) returns (inum: nat)
      requires Valid() && freeinode < |inodes| && Disk() == inodes
      modifies this`blocks, this`inodes, this`freeinode
      ensures Valid() && inum == old(freeinode) && freeinode == inum + 1
      ensures inodes == old(inodes)[inum := NewInode(typ)] && Disk() == inodes && SameBytes(old(St()), St())
      ensures inodes[inum].typ == typ && inodes[inum].major == inodes[inum].minor == inodes[inum].size == 0
      ensures inodes[inum].nlink == 1
      ensures inodes[inum].userid == [114, 111, 111, 116] && inodes[inum].mode == 0x3D  // "root", rwx for it and r-x for others
      ensures forall s :: 0 <= s <= NDIRECT ==> inodes[inum].addrs[s] == 0
    {
      hide Inv, InodesOf, SameBytes, SameHolds;
      inum := freeinode;
      freeinode := freeinode + 1;
      ghost var st := St();
      NewInodeKeeps(l, st, inum, NewInode(typ));
      inodes := inodes[inum := NewInode(typ)];
      ghost var st1 := St();
      Winode(inum);
      SameBytesTrans(st, st1, St());
    }

    /** iappend finds or allocates addrs[s]. mkfs does not check for the end of the image; here that is not ok. */
    method MapDirect(i: nat, s: nat) returns (ok: bool, b: nat)
      requires Valid() && i < |inodes| && i < freeinode && s <= NDIRECT
      modifies this`inodes, this`freeblock, this`owner
      ensures Valid() && (ok <==> old(freeblock) + |old(Holes(St(), i, {s}))| <= l.size)
      ensures ok ==> freeblock == old(freeblock) + |old(Holes(St(), i, {s}))|
      ensures ok ==> Mapped(l, old(St()), St(), i, s, b) && inodes[i].addrs == old(inodes)[i].addrs[s := b]
      ensures !ok ==> St() == old(St()) && freeblock == l.size
    {
      hide Inv, InUse, Word, Mapped, MapLogged, Gained, KeepsData, SameHolds, Holes;
      ghost var st := St();
      InvShape(l, st);
      HolesOne(st, i, s);
      if inodes[i].addrs[s] == 0 {
        if freeblock == l.size {
          return false, 0;
        }
        b := freeblock;
        NextBlock(l, blocks, inodes, owner, b);
        AllocateLinkDirect(l, st, i, s, b);
        inodes := WithAddr(inodes, i, s, b);
        owner := owner[b := Slot(i, s)];
        freeblock := freeblock + 1;
        assert St() == LinkedDirect(Allocated(l, st, b), i, s, b);
        MappedGained(l, st, St(), i, s, b, {}, {}, 0);
      } else {
        b := inodes[i].addrs[s];
        assert IsSlot(st, Slot(i, s)) && Holds(st, Slot(i, s)) == b;
        MappedSame(l, st, i, s, {});
      }
      ok := true;
    }

    /** and likewise an entry of the indirect block. */
    method MapEntry(i: nat, j: nat) returns (ok: bool, b: nat)
      requires Valid() && i < |inodes| && j < NINDIRECT && inodes[i].addrs[NDIRECT] != 0
      modifies this`blocks, this`freeblock, this`owner
      ensures Disk() == old(Disk())
      ensures Valid() && (ok <==> old(freeblock) + |old(Holes(St(), i, {NDIRECT + 1 + j}))| <= l.size)
      ensures ok ==> freeblock == old(freeblock) + |old(Holes(St(), i, {NDIRECT + 1 + j}))|
      ensures ok ==> Mapped(l, old(St()), St(), i, NDIRECT + 1 + j, b)
      ensures !ok ==> St() == old(St()) && freeblock == l.size
    {
      hide Inv, InUse, Word, PutWord, Mapped, MapLogged, Gained, KeepsData, SameHolds, InodesOf, BlankFrom, Used,
        MarkIn, Holes;
      ghost var st := St();
      InvShape(l, st);
      HolesOne(st, i, NDIRECT + 1 + j);
      IndirectBlocks(l, st, i, j);
      var ind := inodes[i].addrs[NDIRECT];
      IndirectInUse(l, blocks, inodes, owner, freeblock, i);
      var e := Word(blocks[ind], j);
      assert IsSlot(st, Slot(i, NDIRECT + 1 + j)) && Holds(st, Slot(i, NDIRECT + 1 + j)) == e;
      if e == 0 {
        if freeblock == l.size {
          return false, 0;
        }
        b := freeblock;
        NextBlock(l, blocks, inodes, owner, b);
        AllocateLinkEntry(l, st, i, j, b);
        InodesUntouched(l, inodestart, ninodes, blocks, ind, PutWord(blocks[ind], j, b));
        blocks := blocks[ind := PutWord(blocks[ind], j, b)];
        owner := owner[b := Slot(i, NDIRECT + 1 + j)];
        freeblock := freeblock + 1;
        assert St() == LinkedEntry(Allocated(l, st, b), i, j, b);
        MappedGained(l, st, St(), i, NDIRECT + 1 + j, b, {}, {}, 0);
      } else {
        b := e;
        MappedSame(l, st, i, NDIRECT + 1 + j, {});
      }
      ok := true;
    }

    method MapBlock(i: nat, bn: nat) returns (ok: bool, b: nat)
      requires Valid() && i < |inodes| && i < freeinode && bn < MAXFILE
      modifies this`blocks, this`inodes, this`freeblock, this`owner
      ensures ok <==> old(freeblock) + |old(Holes(St(), i, Via(SlotOf(bn))))| <= l.size
      ensures ok ==> freeblock == old(freeblock) + |old(Holes(St(), i, Via(SlotOf(bn))))|
      ensures ok ==> Valid() && Disk() == old(Disk()) && Mapped(l, old(St()), St(), i, SlotOf(bn), b)
    {
      hide Inv, Mapped, InodesOf, Holes, Fills, BlankFrom, Used, Addr;
      ghost var st := St();
      InvShape(l, st);
      b := 0;
      if bn < NDIRECT {
        ok, b := MapDirect(i, bn);
        return;
      }
      var ind;
      HolesFewer(st, i, {NDIRECT}, Via(SlotOf(bn)));
      assert Via(SlotOf(bn)) == {NDIRECT} + {bn + 1};
      ok, ind := MapDirect(i, NDIRECT);
      if !ok {
        return;
      }
      ghost var st1 := St();
      MappedInv(l, st, st1, i, NDIRECT, ind);
      MappedFacts(l, st, st1, i, NDIRECT, ind);
      HolesTwice(st, st1, i, {NDIRECT}, {bn + 1});
      InvShape(l, st1);
      ok, b := MapEntry(i, bn - NDIRECT);
      if ok {
        MappedTwice(l, st, st1, St(), i, bn - NDIRECT, ind, b);
      }
    }

    /** One turn of iappend's loop. */
    method AppendChunk(i: nat, off: nat, src: seq<byte>) returns (ok: bool)
      requires Valid() && i < |inodes| && i < freeinode && 0 < |src| <= BSIZE - off % BSIZE && off + |src| <= MAXBYTES
      modifies this`blocks, this`inodes, this`freeblock, this`owner
      ensures ok <==> old(freeblock) + |old(Holes(St(), i, Via(SlotOf(off / BSIZE))))| <= l.size
      ensures ok ==> freeblock == old(freeblock) + |old(Holes(St(), i, Via(SlotOf(off / BSIZE))))|
      ensures ok ==> Valid() && Disk() == old(Disk()) && Written(old(St()), St(), i, off, src)
      ensures ok ==> Fills(old(St()), St(), i, Via(SlotOf(off / BSIZE)))
      ensures ok && FilledTo(old(St()), i, off) ==> FilledTo(St(), i, off + |src|)
      ensures ok ==> inodes == old(inodes)[i := old(inodes)[i].(addrs := inodes[i].addrs)]
    {
      hide Inv, Mapped, Written, Addr, InUse, FilledTo, Grew, SameHolds, InodesOf, Fills, Via, Holes;
      ghost var st := St();
      var x;
      ok, x := MapBlock(i, off / BSIZE);
      if !ok {
        return;
      }
      ghost var st1 := St();
      InvShape(l, st1);
      MappedFacts(l, st, st1, i, SlotOf(off / BSIZE), x);
      HeldInUse(l, blocks, inodes, owner, freeblock, Slot(i, SlotOf(off / BSIZE)), x);
      var o := off % BSIZE;
      var d := blocks[x][..o] + src + blocks[x][o + |src|..];
      ChunkWritten(l, st1, i, off, src, d);
      InodesUntouched(l, inodestart, ninodes, blocks, x, d);
      blocks := blocks[x := d];
      assert St() == st1.(blocks := st1.blocks[x := d]);
      WrittenAfterSame(st, st1, St(), i, off, src);
      FillsSame(st, st1, St(), i, Via(SlotOf(off / BSIZE)));
      if FilledTo(st, i, off) {
        FilledMore(st, st1, St(), i, off, |src|);
      }
    }

    /** iappend's loop. */
    method AppendLoop(i: nat, off0: nat, src: seq<byte>) returns (ok: bool)
      requires Valid() && i < |inodes| && i < freeinode && off0 + |src| <= MAXBYTES
      modifies this`blocks, this`inodes, this`freeblock, this`owner
      ensures ok <==> old(freeblock) + |old(Holes(St(), i, Slots(off0, off0 + |src|)))| <= l.size
      ensures ok ==> freeblock == old(freeblock) + |old(Holes(St(), i, Slots(off0, off0 + |src|)))|
      ensures ok ==> Valid() && Disk() == old(Disk()) && inodes == old(inodes)[i := old(inodes)[i].(addrs := inodes[i].addrs)]
      ensures ok ==> Fills(old(St()), St(), i, Slots(off0, off0 + |src|))
      ensures ok ==> Written(old(St()), St(), i, off0, src) && (FilledTo(old(St()), i, off0) ==> FilledTo(St(), i, off0 + |src|))
    {
      hide Inv, Written, FileByte, Chunk, FilledTo, InodesOf, Fills, Slots, Via, Holes, BlankFrom, Used, SlotOf;
      ghost var st := St();
      InvShape(l, st);
      WrittenNothing(st, i, off0);
      assert src[..0] == [];
      var tot := 0;
      HolesStart(st, i, off0);
      SlotsNone(off0);
      FillsNone(st, i);
      while tot < |src|
        invariant 0 <= tot <= |src| && Valid() && Disk() == old(Disk())
        invariant tot == 0 || tot == |src| || (off0 + tot) % BSIZE == 0
        invariant Fills(st, St(), i, Slots(off0, off0 + tot))
        invariant freeblock == old(freeblock) + |Holes(st, i, Slots(off0, off0 + tot))|
        invariant inodes == st.inodes[i := st.inodes[i].(addrs := inodes[i].addrs)]
        invariant Written(st, St(), i, off0, src[..tot])
        invariant FilledTo(st, i, off0) ==> FilledTo(St(), i, off0 + tot)
      {
        var off := off0 + tot;
        var n1 := Chunk(off, |src| - tot);
        ghost var st1 := St();
        NextHoles(st, st1, i, off0, off, n1);
        SlotsFewer(off0, off + n1, off0 + |src|);
        HolesFewer(st, i, Slots(off0, off + n1), Slots(off0, off0 + |src|));
        ok := AppendChunk(i, off, src[tot..tot + n1]);
        if !ok {
          return;
        }
        FillsTwice(st, st1, St(), i, Slots(off0, off), Via(SlotOf(off / BSIZE)));
        WrittenConcat(st, st1, St(), i, off0, src[..tot], src[tot..tot + n1]);
        SliceConcat(src, tot, n1);
        tot := tot + n1;
      }
      assert src[..tot] == src;
      ok := true;
    }

    /** iappend: the bytes go to the end of the file, and no other file changes. It fails if the file would be too big
        or the image is full. */
    method Iappend(i: nat, src: seq<byte>) returns (ok: bool)
      requires Valid() && i < |inodes| && i < freeinode && inodes[i].size <= MAXBYTES && Disk() == inodes
      modifies this`blocks, this`inodes, this`freeblock, this`owner
      ensures ok <==>
                && old(inodes)[i].size + |src| <= MAXBYTES
                && old(freeblock) + |old(Holes(St(), i, Slots(inodes[i].size, inodes[i].size + |src|)))| <= l.size
      ensures ok ==> Valid() && Disk() == inodes
      ensures ok ==> freeblock == old(freeblock) + |old(Holes(St(), i, Slots(inodes[i].size, inodes[i].size + |src|)))|
      ensures ok && Tight(old(inodes)[i]) ==> Tight(inodes[i])
      ensures ok ==> inodes[i].(addrs := []) == old(inodes)[i].(size := old(inodes)[i].size + |src|, addrs := [])
      ensures ok ==> HasContents(St(), i, old(Contents(St(), i)) + src)
      ensures ok && NoHoles(old(St()), i) ==> NoHoles(St(), i)
      ensures ok ==> OthersKept(old(St()), St(), i)
    {
      hide Inv, Written, SameBytes, SameHolds, NoHoles, FilledTo, InodesOf, Contents, OthersKept, Fills, Slots, Holes, Tight;
      ghost var st := St();
      InvShape(l, st);
      var off0 := inodes[i].size;
      if off0 + |src| > MAXBYTES {
        return false;
      }
      ok := AppendLoop(i, off0, src);
      if !ok {
        return;
      }
      ghost var st1 := St();
      inodes := inodes[i := inodes[i].(size := off0 + |src|)];
      ghost var st2 := St();
      Resized(l, st, st1, st2, i, src);
      HolesFilled(st, i);
      HolesFilled(st2, i);
      FilledSame(st1, st2, i, off0 + |src|);
      TightAfter(st, st1, i, |src|);
      Winode(i);
      WrittenBeforeSame(st, st2, St(), i, off0, src);
      WrittenKeepsOthers(st, St(), i, off0, src);
      SameBytesContents(st2, St(), i);
      if NoHoles(st2, i) {
        NoHolesKept(st2, St(), i);
      }
    }

    /** The size of the root directory is rounded up to the next block boundary above it. That leaves a hole exactly when
        the block there was never allocated: if mkfs itself wrote the directory, exactly when it ended at a boundary. */
    method RoundSize(i: nat)
      requires Valid() && i < |inodes| && i < freeinode && inodes[i].size < MAXBYTES && Disk() == inodes
      modifies this`blocks, this`inodes
      ensures Valid() && Disk() == inodes && OthersKept(old(St()), St(), i)
      ensures inodes[i] == old(inodes)[i].(size := (old(inodes)[i].size / BSIZE + 1) * BSIZE) && inodes[i].size <= MAXBYTES
      ensures Contents(St(), i)[..old(inodes)[i].size] == old(Contents(St(), i))
      ensures NoHoles(old(St()), i) ==>
                (NoHoles(St(), i) <==> Addr(St().blocks, inodes[i], SlotOf(old(inodes)[i].size / BSIZE)) != 0)
      ensures NoHoles(old(St()), i) && old(inodes)[i].size % BSIZE != 0 ==> NoHoles(St(), i)
      ensures NoHoles(old(St()), i) && Tight(old(inodes)[i]) && old(inodes)[i].size < NDIRECT * BSIZE ==>
                (NoHoles(St(), i) <==> old(inodes)[i].size % BSIZE != 0)
      ensures SameHolds(old(St()), St())
    {
      hide Inv, SameBytes, SameHolds, NoHoles, InodesOf, OthersKept, Contents;
      ghost var st := St();
      InvShape(l, st);
      var size := (inodes[i].size / BSIZE + 1) * BSIZE;
      ResizeKeeps(l, st, i, size);
      inodes := inodes[i := inodes[i].(size := size)];
      ghost var st1 := St();
      Winode(i);
      SameBytesTrans(st, st1, St());
      SameBytesOthers(st, St(), i);
      SamePrefix(st, St(), i);
      SameHoldsTrans(st, st1, St());
      HoleAtEnd(st, St(), i);
    }

    /** balloc: the bitmap with the first freeblock bits, written over its block. False is a failed assertion. */
    method Balloc() returns (ok: bool)
      requires Valid()
      modifies this`blocks
      ensures ok <==> freeblock < BPB
      ensures ok ==> Valid() && St() == old(St()) && St() == State(blocks, inodes, owner, {}) && Disk() == old(Disk())
    {
      hide MarkIn, InUse, InodesOf;
      if freeblock >= BPB {
        return false;
      }
      var buf, i := Zeroes(), 0;
      while i < freeblock
        invariant 0 <= i <= freeblock && buf == Used(i)
      {
        buf := MarkIn(buf, i, true);
        i := i + 1;
      }
      InodesUntouched(l, inodestart, ninodes, blocks, l.bmap, buf);
      blocks := blocks[l.bmap := buf];
      assert blocks[l.bmap := Used(freeblock)] == blocks;
      assert St() == old(St());
      ok := true;
    }

    /** The kernel starts from a file system in order, with the files mkfs wrote. */
    method Boot() returns (fs: Files.Fs)
      requires Valid() && St() == State(blocks, inodes, owner, {}) && Disk() == inodes
      ensures fs.Valid() && fresh(fs) && fs.St() == St() && fs.Disk() == fs.inodes && fs.outstanding == 0 && fs.txns == []
      ensures fs.l == l && fs.inodestart == inodestart && fs.ninodes == ninodes
    {
      fs := new Files.Fs(l, inodestart, ninodes, blocks, owner);
    }
  }

  /** The inode has a block of its own exactly where the file reaches. */
  predicate Tight(ino: Inode)
    requires |ino.addrs| == NDIRECT + 1
  {
    forall s :: 0 <= s <= NDIRECT ==> (ino.addrs[s] != 0 <==> Touches(0, ino.size, s))
  }

  lemma TightAfter(st: State, st1: State, i: nat, n: nat)
    requires i < |st.inodes| && |st.inodes[i].addrs| == NDIRECT + 1
    requires Fills(st, st1, i, Slots(st.inodes[i].size, st.inodes[i].size + n)) && st.inodes[i].size + n <= MAXBYTES
    ensures Tight(st.inodes[i]) ==> Tight(st1.inodes[i].(size := st.inodes[i].size + n))
  {
    var off := st.inodes[i].size;
    SlotsJoin(0, off, off + n);
    forall s: nat | s <= NDIRECT && Tight(st.inodes[i]) ensures st1.inodes[i].addrs[s] != 0 <==> Touches(0, off + n, s) {
      assert IsSlot(st, Slot(i, s)) && IsSlot(st1, Slot(i, s));
      assert FillsAt(st, st1, i, Slots(off, off + n), Slot(i, s));
      assert s in Slots(0, off + n) <==> s in Slots(0, off) || s in Slots(off, off + n);
    }
  }

  /** The last step of iappend records the new size. */
  lemma Resized(l: Layout, st: State, st1: State, st2: State, i: nat, src: seq<byte>)
    requires Inv(l, st) && Inv(l, st1) && i < |st.inodes| && st.inodes[i].size + |src| <= MAXBYTES
    requires |st1.inodes| == |st.inodes| && st1.inodes == st.inodes[i := st.inodes[i].(addrs := st1.inodes[i].addrs)]
    requires Written(st, st1, i, st.inodes[i].size, src)
    requires st2 == st1.(inodes := st1.inodes[i := st1.inodes[i].(size := st.inodes[i].size + |src|)])
    ensures Inv(l, st2) && HasContents(st2, i, Contents(st, i) + src) && Written(st, st2, i, st.inodes[i].size, src)
  {
    hide Written, SameBytes, SameHolds, InUse, Word, FileByte;
    var off := st.inodes[i].size;
    ResizeKeeps(l, st1, i, off + |src|);
    WrittenBeforeSame(st, st1, st2, i, off, src);
    WrittenContents(st, st2, i, off, src);
    assert Overlay(Contents(st, i), off, src) == Contents(st, i) + src;
  }

  lemma SameHoldsTrans(st: State, st1: State, st2: State)
    requires SameHolds(st, st1) && SameHolds(st1, st2)
    ensures SameHolds(st, st2)
  {
    hide Word;
  }

  lemma SameBytesOthers(st: State, st': State, i: nat)
    requires SameBytes(st, st') && |st'.inodes| == |st.inodes|
    requires forall k :: 0 <= k < |st.inodes| && k != i ==> st'.inodes[k] == st.inodes[k]
    ensures OthersKept(st, st', i)
  {
    hide FileByte;
  }

  lemma SamePrefix(st: State, st': State, i: nat)
    requires SameBytes(st, st') && i < |st.inodes| && |st.inodes[i].addrs| == NDIRECT + 1
    requires st.inodes[i].size <= st'.inodes[i].size <= MAXBYTES
    ensures Contents(st', i)[..st.inodes[i].size] == Contents(st, i)
  {
    hide FileByte;
  }

  lemma HoleAtEnd(st: State, st': State, i: nat)
    requires SameHolds(st, st') && i < |st.inodes| && |st.inodes[i].addrs| == NDIRECT + 1 && st.inodes[i].size < MAXBYTES
    requires st'.inodes[i].size == (st.inodes[i].size / BSIZE + 1) * BSIZE
    ensures NoHoles(st, i) ==> (NoHoles(st', i) <==> Addr(st'.blocks, st'.inodes[i], SlotOf(st.inodes[i].size / BSIZE)) != 0)
    ensures NoHoles(st, i) && st.inodes[i].size % BSIZE != 0 ==> NoHoles(st', i)
  {
    var last := st.inodes[i].size / BSIZE;
    forall bn: nat | bn < MAXFILE
      ensures Addr(st'.blocks, st'.inodes[i], SlotOf(bn)) == Addr(st.blocks, st.inodes[i], SlotOf(bn))
      ensures bn * BSIZE < st'.inodes[i].size <==> bn <= last
      ensures bn < last ==> bn * BSIZE < st.inodes[i].size
    {
      assert IsSlot(st, Slot(i, SlotOf(bn)));
    }
    assert last < MAXFILE;
    assert st.inodes[i].size % BSIZE != 0 ==> last * BSIZE < st.inodes[i].size;
  }

  /** Every block of inode i below byte `end` is allocated. */
  ghost predicate FilledTo(st: State, i: nat, end: nat) {
    && i < |st.inodes| && |st.inodes[i].addrs| == NDIRECT + 1
    && forall bn :: 0 <= bn < MAXFILE && bn * BSIZE < end ==> Addr(st.blocks, st.inodes[i], SlotOf(bn)) != 0
  }

  lemma HolesFilled(st: State, i: nat)
    requires i < |st.inodes|
    ensures NoHoles(st, i) <==> FilledTo(st, i, st.inodes[i].size)
  {
  }

  lemma FilledSame(st: State, st': State, i: nat, end: nat)
    requires st'.blocks == st.blocks && i < |st.inodes| && i < |st'.inodes| && st'.inodes[i].addrs == st.inodes[i].addrs
    ensures FilledTo(st, i, end) <==> FilledTo(st', i, end)
  {
    assert forall s :: |st.inodes[i].addrs| == NDIRECT + 1 && 0 <= s < SLOTS ==>
        Addr(st'.blocks, st'.inodes[i], s) == Addr(st.blocks, st.inodes[i], s);
  }

  lemma FilledMore(st: State, st1: State, st2: State, i: nat, off: nat, m: nat)
    requires FilledTo(st, i, off) && Grew(st, st1) && SameHolds(st1, st2) && i < |st2.inodes|
    requires |st2.inodes[i].addrs| == NDIRECT + 1
    requires 0 < m <= BSIZE - off % BSIZE && off + m <= MAXBYTES && i < |st1.inodes| && |st1.inodes[i].addrs| == NDIRECT + 1
    requires Addr(st1.blocks, st1.inodes[i], SlotOf(off / BSIZE)) != 0
    ensures FilledTo(st2, i, off + m)
  {
    hide Word;
    forall bn | 0 <= bn < MAXFILE && bn * BSIZE < off + m ensures Addr(st2.blocks, st2.inodes[i], SlotOf(bn)) != 0 {
      var x := Slot(i, SlotOf(bn));
      assert IsSlot(st, x) && IsSlot(st1, x);
      assert bn * BSIZE < off || bn == off / BSIZE;
      assert bn * BSIZE < off ==> Holds(st, x) != 0;
      assert Holds(st2, x) == Holds(st1, x);
    }
  }

  /** A block that a slot holds is a data block below freeblock. */
  lemma HeldInUse(l: Layout, blocks: seq<Block>, inodes: seq<Inode>, owner: map<nat, Slot>, n: nat, x: Slot, b: nat)
    requires l.Valid(blocks) && l.size <= BPB && n <= BPB && Inv(l, Finished(l, blocks, inodes, owner, n))
    requires IsSlot(Finished(l, blocks, inodes, owner, n), x) && Holds(Finished(l, blocks, inodes, owner, n), x) == b != 0
    ensures l.data <= b < n && b < l.size && b in owner && owner[b] == x
  {
    FinishedBits(l, blocks, n, b);
  }

  lemma IndirectInUse(l: Layout, blocks: seq<Block>, inodes: seq<Inode>, owner: map<nat, Slot>, n: nat, i: nat)
    requires l.Valid(blocks) && l.size <= BPB && n <= BPB && Inv(l, Finished(l, blocks, inodes, owner, n))
    requires i < |inodes| && |inodes[i].addrs| == NDIRECT + 1 && inodes[i].addrs[NDIRECT] != 0
    ensures l.data <= inodes[i].addrs[NDIRECT] < n && inodes[i].addrs[NDIRECT] < l.size
  {
    HeldInUse(l, blocks, inodes, owner, n, Slot(i, NDIRECT), inodes[i].addrs[NDIRECT]);
  }
}
