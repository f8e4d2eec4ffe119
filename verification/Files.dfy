/** The file layer of fs.c: block allocation, block maps, truncation, and reading and writing inodes; and filewrite
    of file.c. */
module Files {
  import opened Blocks
  import opened Bitmap
  import opened Dinodes
  import opened BlockMap
  import opened FileContents
  import opened FileTransactions

  /** The condition of the panic "balloc: out of blocks". */
  ghost predicate DiskFull(l: Layout, blocks: seq<Block>) {
    forall c :: 0 <= c < l.size ==> Taken(l, blocks, c)
  }

  /** balloc's scan of the bitmap, block by block and bit by bit. */
  method FindFree(l: Layout, blocks: seq<Block>) returns (r: Option<nat>)
    requires l.Valid(blocks)
    ensures r == None ==> DiskFull(l, blocks)
    ensures r.Some? ==> r.value < l.size && !Taken(l, blocks, r.value) && forall c :: 0 <= c < r.value ==> Taken(l, blocks, c)
  {
    hide MarkedIn;
    var b := 0;
    while b < l.size
      invariant b % BPB == 0
      invariant forall c :: 0 <= c < b && c < l.size ==> Taken(l, blocks, c)
    {
      BitBlockBelowData(l, blocks, b);
      var data := blocks[BitBlock(l, b)];
      var bi := 0;
      while bi < BPB && b + bi < l.size
        invariant 0 <= bi <= BPB
        invariant forall c :: 0 <= c < b + bi && c < l.size ==> Taken(l, blocks, c)
      {
        BitPosition(b, bi);
        if !MarkedIn(data, bi) {
          return Some(b + bi);
        }
        bi := bi + 1;
      }
      b := b + BPB;
    }
    r := None;
  }

  lemma FullIffNone(l: Layout, blocks: seq<Block>)
    ensures DiskFull(l, blocks) <==> FreeBlocks(l, blocks) == {}
    ensures DiskFull(l, blocks) <==> |FreeBlocks(l, blocks)| == 0
  {
    if FreeBlocks(l, blocks) == {} {
      forall c: nat | c < l.size ensures Taken(l, blocks, c) {
        assert c !in FreeBlocks(l, blocks);
      }
    }
  }

  /** n blocks can be allocated: none is needed, or an operation is open, so that log_write goes along, and they are free. */
  predicate Delivers(outstanding: nat, free: nat, n: nat) {
    n == 0 || (outstanding > 0 && n <= free)
  }

  class Fs {
    const l: Layout
    const inodestart: nat
    const ninodes: nat
    var blocks: seq<Block>         // what bread returns
    var inodes: seq<Inode>         // in core
    var outstanding: nat           // operations between begin_op and end_op
    ghost var owner: map<nat, Slot>
    ghost var begun: State        // the file system at the last begin_op or end_op
    ghost var logged: set<nat>     // the blocks passed to log_write since
    ghost var txns: seq<Txn>       // the transactions that have ended

    ghost function St(): State
      reads this`blocks, this`inodes, this`owner
    {
      State(blocks, inodes, owner, {})
    }

    /** The inodes on the disk. */
    ghost function Disk(): seq<Inode>
      reads this`blocks
    {
      InodesOf(inodestart, ninodes, blocks)
    }

    /** How many blocks are free. */
    ghost function Free(): nat
      reads this`blocks
    {
      |FreeBlocks(l, blocks)|
    }

    /** Only logged blocks have changed in this transaction. */
    ghost predicate Kept()
      reads this`blocks, this`begun, this`logged
    {
      AreaBelow(l, inodestart, ninodes) && Logging(inodestart, begun.blocks, blocks, logged)
    }

    ghost predicate Valid()
      reads this
    {
      Inv(l, St()) && |inodes| == ninodes && Kept()
    }

    /** A disk, with its inodes read in. */
    constructor (l: Layout, inodestart: nat, ninodes: nat, blocks: seq<Block>, ghost owner: map<nat, Slot>)
      requires AreaBelow(l, inodestart, ninodes)
      requires Inv(l, State(blocks, InodesOf(inodestart, ninodes, blocks), owner, {}))
      ensures Valid() && this.blocks == blocks && this.owner == owner && inodes == Disk() && txns == []
      ensures this.l == l && this.inodestart == inodestart && this.ninodes == ninodes
      ensures logged == {} && begun == St() && outstanding == 0
    {
      this.l, this.inodestart, this.ninodes, this.blocks := l, inodestart, ninodes, blocks;
      inodes, outstanding := InodesOf(inodestart, ninodes, blocks), 0;
      this.owner, logged, txns := owner, {}, [];
      begun := State(blocks, InodesOf(inodestart, ninodes, blocks), owner, {});
    }

    /** log_write. False is the panic "log_write outside of trans". */
    method LogWrite(b: nat, data: Block) returns (ok: bool)
      requires b < |blocks|
      modifies this`blocks, this`logged
      ensures ok <==> outstanding > 0
      ensures ok ==> blocks == old(blocks)[b := data] && logged == old(logged) + {b}
      ensures !ok ==> blocks == old(blocks) && logged == old(logged)
      ensures old(Kept()) && inodestart <= b ==> Kept()
      ensures old(Kept()) && l.bmap <= b ==> Disk() == old(Disk())
    {
      if outstanding < 1 {
        return false;
      }
      if Kept() && inodestart <= b {
        LoggingMore(inodestart, begun.blocks, blocks, logged, b, data);
      }
      if AreaBelow(l, inodestart, ninodes) && l.bmap <= b {
        InodesUntouched(l, inodestart, ninodes, blocks, b, data);
      }
      blocks := blocks[b := data];
      logged := logged + {b};
      ok := true;
    }

    /** begin_op */
    method BeginOp()
      requires Valid()
      modifies this`begun, this`logged, this`outstanding
      ensures Valid() && begun == St() && logged == {} && outstanding == old(outstanding) + 1
    {
      LoggingStarts(inodestart, blocks);
      begun, logged := St(), {};
      outstanding := outstanding + 1;
    }

    /** end_op */
    method EndOp()
      requires Valid() && outstanding > 0
      modifies this`begun, this`logged, this`txns, this`outstanding
      ensures Valid() && begun == St() && logged == {} && outstanding == old(outstanding) - 1
      ensures txns == old(txns) + [Txn(old(begun), St(), old(logged))]
    {
      txns := txns + [Txn(begun, St(), logged)];
      LoggingStarts(inodestart, blocks);
      begun, logged := St(), {};
      outstanding := outstanding - 1;
    }

    /** balloc: the lowest free block, marked and zeroed. None is the panic "balloc: out of blocks", or log_write's. */
    method Balloc() returns (r: Option<nat>)
      requires l.Valid(blocks)
      modifies this`blocks, this`logged
      ensures r == None <==> outstanding == 0 || DiskFull(l, old(blocks))
      ensures r == None ==> blocks == old(blocks) && logged == old(logged)
      ensures old(Kept()) && (r.Some? ==> l.bmap <= r.value) ==> Kept() && Disk() == old(Disk())
      ensures r.Some? ==>
                && r.value < l.size && BitBlock(l, r.value) < |blocks|
                && !InUse(l, old(blocks), r.value) && (forall c :: 0 <= c < r.value ==> Taken(l, old(blocks), c))
                && blocks == Mark(l, old(blocks), r.value, true)[r.value := Zeroes()]
                && logged == old(logged) + {BitBlock(l, r.value), r.value}
    {
      hide MarkIn, MarkedIn, Logging, InodesOf;
      r := FindFree(l, blocks);
      if r.Some? {
        var b := r.value;
        BitBlockBelowData(l, blocks, b);
        var bp := BitBlock(l, b);
        var ok := LogWrite(bp, MarkIn(blocks[bp], b % BPB, true));
        if !ok {
          return None;
        }
        ok := LogWrite(b, Zeroes());
      }
    }

    /** bfree. False is the panic "freeing free block", or log_write's. */
    method Bfree(b: nat) returns (ok: bool)
      requires l.Valid(blocks) && b < l.size
      modifies this`blocks, this`logged
      ensures BitBlock(l, b) < |old(blocks)| && ok == (InUse(l, old(blocks), b) && outstanding > 0)
      ensures ok ==> blocks == Mark(l, old(blocks), b, false) && logged == old(logged) + {BitBlock(l, b)}
      ensures !ok ==> blocks == old(blocks) && logged == old(logged)
      ensures old(Kept()) ==> Kept() && Disk() == old(Disk())
    {
      hide MarkIn, MarkedIn, Logging, InodesOf;
      BitBlockBelowData(l, blocks, b);
      var bp := BitBlock(l, b);
      if !MarkedIn(blocks[bp], b % BPB) {
        return false;
      }
      ok := LogWrite(bp, MarkIn(blocks[bp], b % BPB, false));
    }

    /** Allocate a block for addrs[s]: a direct block, or the indirect block. */
    method AllocDirect(i: nat, s: nat) returns (r: Option<nat>)
      requires Valid() && i < |inodes| && s <= NDIRECT && inodes[i].addrs[s] == 0
      modifies this`blocks, this`inodes, this`owner, this`logged
      ensures r.Some? <==> outstanding > 0 && old(Free()) > 0
      ensures r == None && outstanding > 0 ==> DiskFull(l, blocks)
      ensures r.Some? ==>
                && Free() == old(Free()) - 1
                && Valid() && Disk() == old(Disk()) && l.data <= r.value < l.size && blocks[r.value] == Zeroes()
                && Gained(old(St()), St(), Slot(i, s), r.value)
                && inodes == WithAddr(old(inodes), i, s, r.value)
                && KeepsData(old(St()), blocks)
                && logged == old(logged) + {BitBlock(l, r.value), r.value}
    {
      hide Inv, InUse, Mark, Gained, KeepsData, SameHolds, Logging, InodesOf, FreeBlocks, DiskFull, Taken;
      ghost var st := St();
      InvShape(l, st);
      FullIffNone(l, blocks);
      r := Balloc();
      if r.Some? {
        var b := r.value;
        AllocateLinkDirect(l, st, i, s, b);
        inodes := WithAddr(inodes, i, s, b);
        owner := owner[b := Slot(i, s)];
        assert St() == LinkedDirect(Allocated(l, st, b), i, s, b);
        FreeLess(l, st, St(), b);
      }
    }

    /** Allocate a block for entry j of the indirect block. */
    method AllocEntry(i: nat, j: nat) returns (r: Option<nat>)
      requires Valid() && i < |inodes| && j < NINDIRECT && inodes[i].addrs[NDIRECT] != 0
      requires Addr(blocks, inodes[i], NDIRECT + 1 + j) == 0
      modifies this`blocks, this`owner, this`logged
      ensures r.Some? <==> outstanding > 0 && old(Free()) > 0
      ensures r == None && outstanding > 0 ==> DiskFull(l, blocks)
      ensures r.Some? ==>
                && Free() == old(Free()) - 1
                && Valid() && Disk() == old(Disk()) && l.data <= r.value < l.size && blocks[r.value] == Zeroes()
                && Gained(old(St()), St(), Slot(i, NDIRECT + 1 + j), r.value)
                && KeepsData(old(St()), blocks)
                && logged == old(logged) + {BitBlock(l, r.value), r.value, inodes[i].addrs[NDIRECT]}
    {
      hide Inv, InUse, Mark, Gained, KeepsData, SameHolds, Word, PutWord, Logging, InodesOf, FreeBlocks;
      ghost var st := St();
      InvShape(l, st);
      IndirectBlocks(l, st, i, j);
      var ind := inodes[i].addrs[NDIRECT];
      var data := blocks[ind];
      HeldIsData(l, st, Slot(i, NDIRECT));
      FullIffNone(l, blocks);
      r := Balloc();
      if r.Some? {
        var b := r.value;
        AllocateLinkEntry(l, st, i, j, b);
        var ok := LogWrite(ind, PutWord(data, j, b));
        owner := owner[b := Slot(i, NDIRECT + 1 + j)];
        assert St() == LinkedEntry(Allocated(l, st, b), i, j, b);
        FreeLess(l, st, St(), b);
      }
    }

    /** bmap for a direct block, and for the indirect block itself. */
    method BmapDirect(i: nat, s: nat) returns (r: Option<nat>, ghost bm: set<nat>)
      requires Valid() && i < |inodes| && s <= NDIRECT
      modifies this`blocks, this`inodes, this`owner, this`logged
      ensures r.Some? <==> Delivers(outstanding, old(Free()), |old(Holes(St(), i, {s}))|)
      ensures r.Some? ==> Free() == old(Free()) - |old(Holes(St(), i, {s}))|
      ensures r == None && outstanding > 0 ==> DiskFull(l, blocks)
      ensures r.Some? ==> Valid() && Disk() == old(Disk()) && Mapped(l, old(St()), St(), i, s, r.value)
      ensures r.Some? ==> MapLogged(old(St()), St(), i, s, old(logged), logged, bm)
      ensures old(inodes)[i].addrs[s] != 0 ==> r.Some?
      ensures r.Some? ==> inodes[i].addrs == old(inodes)[i].addrs[s := r.value]
    {
      hide Inv, Mapped, MapLogged, KeepsData, Logging, InodesOf, FreeBlocks, Holes;
      ghost var st, lg := St(), logged;
      InvShape(l, st);
      HolesOne(st, i, s);
      assert IsSlot(st, Slot(i, s)) && Holds(st, Slot(i, s)) == inodes[i].addrs[s];
      r, bm := Some(inodes[i].addrs[s]), {};
      if inodes[i].addrs[s] == 0 {
        r := AllocDirect(i, s);
        if r.Some? {
          bm := {BitBlock(l, r.value)};
          MappedGained(l, st, St(), i, s, r.value, lg, logged, BitBlock(l, r.value));
        }
      } else {
        MappedSame(l, st, i, s, lg);
      }
    }

    /** bmap for entry j of the indirect block. */
    method BmapEntry(i: nat, j: nat) returns (r: Option<nat>, ghost bm: set<nat>)
      requires Valid() && i < |inodes| && j < NINDIRECT && inodes[i].addrs[NDIRECT] != 0
      modifies this`blocks, this`owner, this`logged
      ensures r.Some? <==> Delivers(outstanding, old(Free()), |old(Holes(St(), i, {NDIRECT + 1 + j}))|)
      ensures r.Some? ==> Free() == old(Free()) - |old(Holes(St(), i, {NDIRECT + 1 + j}))|
      ensures r == None && outstanding > 0 ==> DiskFull(l, blocks)
      ensures r.Some? ==> Valid() && Disk() == old(Disk()) && Mapped(l, old(St()), St(), i, NDIRECT + 1 + j, r.value)
      ensures r.Some? ==> MapLogged(old(St()), St(), i, NDIRECT + 1 + j, old(logged), logged, bm)
      ensures old(Addr(blocks, inodes[i], NDIRECT + 1 + j)) != 0 ==> r.Some?
    {
      hide Inv, Mapped, MapLogged, KeepsData, Word, Logging, InodesOf, FreeBlocks, Holes;
      ghost var st, lg := St(), logged;
      InvShape(l, st);
      HolesOne(st, i, NDIRECT + 1 + j);
      IndirectBlocks(l, st, i, j);
      var e := Word(blocks[inodes[i].addrs[NDIRECT]], j);
      assert IsSlot(st, Slot(i, NDIRECT + 1 + j)) && Holds(st, Slot(i, NDIRECT + 1 + j)) == e;
      r, bm := Some(e), {};
      if e == 0 {
        r := AllocEntry(i, j);
        if r.Some? {
          bm := {BitBlock(l, r.value)};
          MappedGained(l, st, St(), i, NDIRECT + 1 + j, r.value, lg, logged, BitBlock(l, r.value));
        }
      } else {
        MappedSame(l, st, i, NDIRECT + 1 + j, lg);
      }
    }

    /** bmap: the disk block of block bn of inode i, allocated on demand. `bm` are the bitmap blocks it logged.
        None is the panic of balloc. */
    method Bmap(i: nat, bn: nat) returns (r: Option<nat>, ghost bm: set<nat>)
      requires Valid() && i < |inodes| && bn < MAXFILE
      modifies this`blocks, this`inodes, this`owner, this`logged
      ensures r.Some? <==> Delivers(outstanding, old(Free()), |old(Holes(St(), i, Via(SlotOf(bn))))|)
      ensures r.Some? ==> Free() == old(Free()) - |old(Holes(St(), i, Via(SlotOf(bn))))|
      ensures r == None && outstanding > 0 ==> DiskFull(l, blocks)
      ensures r.Some? ==> Valid() && Disk() == old(Disk()) && Mapped(l, old(St()), St(), i, SlotOf(bn), r.value)
      ensures r.Some? ==> BmapLogged(old(St()), St(), i, SlotOf(bn), old(logged), logged, bm)
      ensures old(Addr(blocks, inodes[i], SlotOf(bn))) != 0 ==> r.Some?
    {
      hide Inv, Mapped, MapLogged, BmapLogged, Logging, InodesOf, FreeBlocks, Holes, Fills;
      ghost var st, lg := St(), logged;
      InvShape(l, st);
      if bn < NDIRECT {
        r, bm := BmapDirect(i, bn);
        if r.Some? {
          MappedInv(l, st, St(), i, bn, r.value);
          LoggedDirect(l, st, St(), i, bn, r.value, lg, logged, bm);
        }
        return;
      }
      var j := bn - NDIRECT;
      HolesFewer(st, i, {NDIRECT}, Via(SlotOf(bn)));
      assert Via(SlotOf(bn)) == {NDIRECT} + {NDIRECT + 1 + j};
      r, bm := BmapDirect(i, NDIRECT);
      if r == None {
        return;
      }
      ghost var st1, lg1, bm1, ind := St(), logged, bm, r.value;
      MappedInv(l, st, st1, i, NDIRECT, ind);
      MappedFacts(l, st, st1, i, NDIRECT, ind);
      HolesTwice(st, st1, i, {NDIRECT}, {NDIRECT + 1 + j});
      r, bm := BmapEntry(i, j);
      if r.Some? {
        MappedInv(l, st1, St(), i, NDIRECT + 1 + j, r.value);
        MappedTwice(l, st, st1, St(), i, j, ind, r.value);
        LoggedTwice(l, st, st1, St(), i, j, ind, r.value, lg, lg1, logged, bm1, bm);
        bm := bm1 + bm;
      }
    }

    /** One turn of writei's loop: put the bytes into the one block they fall in. */
    method WriteChunk(i: nat, off: nat, src: seq<byte>) returns (ok: bool, ghost blk: nat, ghost bm: set<nat>)
      requires Valid() && i < |inodes| && 0 < |src| <= BSIZE - off % BSIZE && off + |src| <= MAXBYTES
      modifies this`blocks, this`inodes, this`owner, this`logged
      ensures ok <==> outstanding > 0 && |old(Holes(St(), i, Via(SlotOf(off / BSIZE))))| <= old(Free())
      ensures ok ==> Free() == old(Free()) - |old(Holes(St(), i, Via(SlotOf(off / BSIZE))))|
      ensures !ok && outstanding > 0 ==> DiskFull(l, blocks)
      ensures ok ==> Valid() && Disk() == old(Disk()) && Written(old(St()), St(), i, off, src) && Grew(old(St()), St())
      ensures ok ==> Fills(old(St()), St(), i, Via(SlotOf(off / BSIZE)))
      ensures ok ==> inodes == old(inodes)[i := old(inodes)[i].(addrs := inodes[i].addrs)]
      ensures ok ==> ChunkLogged(old(St()), St(), i, off / BSIZE, old(logged), logged, blk, bm)
    {
      hide Inv, Mapped, BmapLogged, ChunkLogged, Written, Grew, Addr, Logging, InodesOf, Fills, FreeBlocks, Holes, Via, SameHolds;
      ghost var st, lg := St(), logged;
      InvShape(l, st);
      var r;
      r, bm := Bmap(i, off / BSIZE);
      if r == None {
        return false, 0, {};
      }
      var a := r.value;
      blk := a;
      ghost var st1, lg1 := St(), logged;
      InvShape(l, st1);
      MappedFacts(l, st, st1, i, SlotOf(off / BSIZE), a);
      var d := blocks[a];
      var o := off % BSIZE;
      var d' := d[..o] + src + d[o + |src|..];
      ChunkWritten(l, st1, i, off, src, d');
      HeldIsData(l, st1, Slot(i, SlotOf(off / BSIZE)));
      ok := LogWrite(a, d');
      if !ok {
        return;
      }
      assert St() == st1.(blocks := st1.blocks[a := d']);
      FillsSame(st, st1, St(), i, Via(SlotOf(off / BSIZE)));
      FreeSame(l, st1, St());
      WrittenAfterSame(st, st1, St(), i, off, src);
      ChunkLoggedAfter(l, st, st1, St(), i, off / BSIZE, lg, lg1, a, bm);
    }

    /** writei's loop. False is the panic of balloc. */
    method WriteLoop(i: nat, src: seq<byte>, off: nat) returns (ok: bool, ghost blks: set<nat>, ghost bms: set<nat>)
      requires Valid() && i < |inodes| && off + |src| <= MAXBYTES
      modifies this`blocks, this`inodes, this`owner, this`logged
      ensures ok <==> |src| == 0 || (outstanding > 0 && |old(Holes(St(), i, Slots(off, off + |src|)))| <= old(Free()))
      ensures !ok && outstanding > 0 ==> DiskFull(l, blocks)
      ensures ok ==> Free() == old(Free()) - |old(Holes(St(), i, Slots(off, off + |src|)))|
      ensures ok ==> Valid() && Disk() == old(Disk()) && Progress(old(St()), St(), i, off, src, old(logged), logged, blks, bms)
    {
      hide Inv, Progress, ChunkLogged, Written, Grew, Chunk, Logging, InodesOf, Fills, FreeBlocks, Holes, Via, Slots, SlotOf, DiskFull;
      ghost var st, lg := St(), logged;
      InvShape(l, st);
      ProgressStart(l, st, i, off, lg);
      blks, bms := {}, {};
      var tot := 0;
      assert src[..0] == [];
      HolesStart(st, i, off);
      while tot < |src|
        invariant 0 <= tot <= |src|
        invariant tot == 0 || tot == |src| || (off + tot) % BSIZE == 0
        invariant |Holes(st, i, Slots(off, off + tot))| == old(Free()) - Free() && (tot > 0 ==> outstanding > 0)
        invariant Valid() && Disk() == old(Disk()) && Progress(st, St(), i, off, src[..tot], lg, logged, blks, bms)
      {
        var o := off + tot;
        var m := Chunk(o, |src| - tot);
        ghost var st1, lg1 := St(), logged;
        ghost var blk, bm;
        InvShape(l, st1);
        ProgressHoles(st, st1, i, off, src[..tot], m, lg, lg1, blks, bms);
        SlotsFewer(off, o + m, off + |src|);
        HolesFewer(st, i, Slots(off, o + m), Slots(off, off + |src|));
        ok, blk, bm := WriteChunk(i, o, src[tot..tot + m]);
        if !ok {
          return;
        }
        ProgressStep(st, st1, St(), i, off, src[..tot], src[tot..tot + m], lg, lg1, logged, blks, bms, blk, bm);
        SliceConcat(src, tot, m);
        blks, bms := blks + {blk}, bms + bm;
        tot := tot + m;
      }
      assert src[..tot] == src;
      ok := true;
    }

    /** iupdate: the disk holds the in-core inode, every other inode on the disk is as before, and no file changes. */
    method Iupdate(i: nat) returns (ok: bool)
      requires Valid() && i < |inodes|
      modifies this`blocks, this`logged
      ensures ok <==> outstanding > 0
      ensures ok ==> Valid() && Disk() == old(Disk())[i := inodes[i]] && logged == old(logged) + {inodestart + i / IPB}
      ensures ok ==> SameHolds(old(St()), St()) && SameBytes(old(St()), St()) && SameDataArea(l, old(blocks), blocks)
    {
      hide Inv, Logging, InodesOf, Encode, SameHolds, SameBytes;
      ghost var st := St();
      InvShape(l, st);
      var b := inodestart + i / IPB;
      assert i / IPB <= ninodes / IPB;
      InodesAfter(inodestart, ninodes, blocks, i, inodes[i]);
      ok := LogWrite(b, Encode(blocks[b], i % IPB, inodes[i]));
      if !ok {
        return;
      }
      BelowBitmapKeeps(l, st, blocks);
      assert St() == st.(blocks := blocks);
    }

    /** writei on a file or directory: src is laid over the contents at off. If it writes below the end of the file where
        the inode itself lacks a block, the block it allocates does not reach the inode on the disk. */
    method Writei(i: nat, src: seq<byte>, off: uint32) returns (r: Outcome, ghost blks: set<nat>, ghost bms: set<nat>)
      requires Valid() && i < |inodes| && inodes[i].size <= MAXBYTES && |src| < 0x1_0000_0000
      modifies this`blocks, this`inodes, this`owner, this`logged
      ensures r == Panic && outstanding > 0 ==> DiskFull(l, blocks)
      ensures r == Ret(-1) <==> BadRange(off, |src|, old(inodes)[i].size) || off + |src| > MAXBYTES
      ensures r == Ret(-1) <==> off > old(inodes)[i].size || off + |src| > 69120
      ensures r == Panic <==>
                && !BadRange(off, |src|, old(inodes)[i].size) && off + |src| <= MAXBYTES && |src| > 0
                && (outstanding == 0 || old(Free()) < |old(Holes(St(), i, Slots(off, off + |src|)))|)
      ensures r == Ret(-1) ==> St() == old(St()) && logged == old(logged)
      ensures r != Panic && r != Ret(-1) ==>
                && r == Ret(|src|) && Valid() && |inodes| == |old(inodes)|
                && off <= old(inodes)[i].size && inodes[i].size <= MAXBYTES
                && Contents(St(), i) == Overlay(old(Contents(St(), i)), off, src)
                && Written(old(St()), St(), i, off, src)
                && (forall k :: 0 <= k < |inodes| && k != i ==> inodes[k] == old(inodes)[k])
                && inodes[i] == old(inodes)[i].(addrs := inodes[i].addrs,
                     size := if off + |src| > old(inodes)[i].size then off + |src| else old(inodes)[i].size)
      ensures r != Panic && r != Ret(-1) && NoHoles(old(St()), i) ==>
                NoHoles(St(), i) && (old(Disk() == inodes) ==> Disk() == inodes)
      ensures r != Panic && r != Ret(-1) ==>
                Disk() == if off + |src| > old(inodes)[i].size then old(Disk())[i := inodes[i]] else old(Disk())
      ensures r != Panic && r != Ret(-1) && old(Disk() == inodes) ==>
                (Disk() == inodes <==> off + |src| > old(inodes)[i].size || NoneMissing(old(inodes)[i], off, off + |src|))
      ensures r != Panic && r != Ret(-1) ==>
                && Fills(old(St()), St(), i, Slots(off, off + |src|))
                && Free() == old(Free()) - |old(Holes(St(), i, Slots(off, off + |src|)))|
      ensures r != Panic && r != Ret(-1) ==>
                WriteLogged(old(St()), St(), i, off, |src|, old(logged), logged, blks, bms, inodestart + i / IPB)
    {
      hide Inv, Progress, Written, Contents, NoHoles, WriteLogged, Logging, InodesOf, SameHolds, SameBytes, Fills, Slots, Holes,
        FreeBlocks, NoneMissing;
      blks, bms := {}, {};
      var n := |src|;
      if off > inodes[i].size || (off + n) % 0x1_0000_0000 < off {
        return Ret(-1), {}, {};
      }
      if off + n > MAXBYTES {
        return Ret(-1), {}, {};
      }
      ghost var st, lg := St(), logged;
      InvShape(l, st);
      var ok;
      ok, blks, bms := WriteLoop(i, src, off);
      if !ok {
        return Panic, {}, {};
      }
      r := Ret(n);
      ghost var st1, lg1 := St(), logged;
      ProgressInodes(st, st1, i, off, src, lg, lg1, blks, bms);
      FillsAddrs(st, st1, i, off, off + n);
      WriteContents(l, st, st1, i, off, src, lg, lg1, blks, bms);
      WriteLoggedAfter(st, st1, i, off, src, lg, lg1, blks, bms, inodestart + i / IPB);
      if NoHoles(st, i) {
        WriteNoHoles(l, st, st1, i, off, src, lg, lg1, blks, bms);
      }
      if n > 0 && off + n > inodes[i].size {
        inodes := inodes[i := inodes[i].(size := off + n)];
        ghost var st2 := St();
        assert st2 == Extended(st1, i, off + n);
        ExtendKeeps(l, st1, i, off + n);
        FillsSame(st, st1, st2, i, Slots(off, off + n));
        ok := Iupdate(i);
        FillsSame(st, st2, St(), i, Slots(off, off + n));
        FreeSame(l, st1, St());
        WrittenBeforeSame(st, st2, St(), i, off, src);
        SameBytesContents(st2, St(), i);
        if NoHoles(st2, i) {
          NoHolesKept(st2, St(), i);
        }
        WriteLoggedSame(st, st2, St(), i, off, n, lg, logged, blks, bms, inodestart + i / IPB);
      }
    }

    /** One turn of readi's loop: c bytes of the block that offset o falls in. */
    method ReadChunk(i: nat, o: nat, c: nat) returns (r: Option<seq<byte>>)
      requires Valid() && i < |inodes| && 0 < c <= BSIZE - o % BSIZE && o + c <= MAXBYTES
      modifies this`blocks, this`inodes, this`owner, this`logged
      ensures r.Some? <==> Delivers(outstanding, old(Free()), |old(Holes(St(), i, Via(SlotOf(o / BSIZE))))|)
      ensures r == None && outstanding > 0 ==> DiskFull(l, blocks)
      ensures r.Some? ==> |r.value| == c && CopyOf(r.value, old(St()), i, o)
      ensures r.Some? ==> Valid() && Disk() == old(Disk()) && SameSlots(old(St()), St()) && SameBytes(old(St()), St())
      ensures r.Some? ==> Fills(old(St()), St(), i, Via(SlotOf(o / BSIZE)))
      ensures r.Some? ==> Free() == old(Free()) - |old(Holes(St(), i, Via(SlotOf(o / BSIZE))))|
      ensures old(Addr(blocks, inodes[i], SlotOf(o / BSIZE))) != 0 ==> r.Some? && St() == old(St()) && logged == old(logged)
    {
      hide Inv, FileByte, SameBytes, Mapped, BmapLogged, Addr, SlotOf, Logging, InodesOf, Fills, Holes, Via, FreeBlocks;
      ghost var st, lg := St(), logged;
      InvShape(l, st);
      SameBytesRefl(st);
      var b;
      ghost var bm;
      b, bm := Bmap(i, o / BSIZE);
      if b == None {
        return None;
      }
      MappedFacts(l, st, St(), i, SlotOf(o / BSIZE), b.value);
      MappedSameState(l, st, St(), i, SlotOf(o / BSIZE), b.value);
      LoggedSame(st, St(), i, SlotOf(o / BSIZE), lg, logged, bm);
      InvShape(l, St());
      var chunk := blocks[b.value][o % BSIZE..o % BSIZE + c];
      ChunkBytes(l, st, St(), i, o, c, b.value, chunk);
      r := Some(chunk);
    }

    /** readi on a file or directory: the contents from off, clipped to the end of the file. It allocates what is missing
        of the file there, so it panics exactly when something is and balloc or log_write cannot go along: in a read
        outside a transaction, at every hole. */
    method Readi(i: nat, off: uint32, n: uint32) returns (r: Outcome, dst: seq<byte>)
      requires Valid() && i < |inodes| && inodes[i].size <= MAXBYTES
      modifies this`blocks, this`inodes, this`owner, this`logged
      ensures r == Panic && outstanding > 0 ==> DiskFull(l, blocks)
      ensures r == Panic <==>
                && !BadRange(off, n, old(inodes)[i].size)
                && !Delivers(outstanding, old(Free()), |old(Holes(St(), i, Slots(off, Clipped(off, n, inodes[i].size))))|)
      ensures r == Ret(-1) <==> BadRange(off, n, old(inodes)[i].size)
      ensures r == Ret(-1) <==> off > old(inodes)[i].size || off + n >= 0x1_0000_0000
      ensures r != Panic && r != Ret(-1) ==>
                r == Ret(|dst|) && |dst| == if off + n <= old(inodes)[i].size then n else old(inodes)[i].size - off
      ensures r == Ret(-1) ==> St() == old(St()) && logged == old(logged)
      ensures r != Panic && r != Ret(-1) ==>
                && off <= old(inodes)[i].size
                && var end := Clipped(off, n, old(inodes)[i].size);
                   r == Ret(end - off) && dst == old(Contents(St(), i))[off..end]
      ensures r != Panic ==> Valid() && Disk() == old(Disk()) && SameSlots(old(St()), St()) && SameBytes(old(St()), St())
      ensures NoHoles(old(St()), i) ==> r != Panic && St() == old(St()) && logged == old(logged)
    {
      hide Inv, FileByte, SameBytes, Addr, SlotOf, Chunk, Logging, InodesOf, Fills, Slots, Holes, Via, FreeBlocks, CopyOf, NoHoles;
      ghost var st, lg := St(), logged;
      InvShape(l, st);
      SameBytesRefl(st);
      dst := [];
      if off > inodes[i].size || (off + n) % 0x1_0000_0000 < off {
        return Ret(-1), [];
      }
      var size := inodes[i].size;
      var m := if off + n > size then size - off else n;
      var tot := 0;
      ghost var end := off + m;
      HolesStart(st, i, off);
      SlotsNone(off);
      FillsNone(st, i);
      assert CopyOf([], st, i, off) by { CopyNone(st, i, off); }
      while tot < m
        invariant 0 <= tot <= m && |dst| == tot
        invariant Valid() && Disk() == old(Disk()) && SameSlots(st, St()) && SameBytes(st, St())
        invariant CopyOf(dst, st, i, off)
        invariant NoHoles(st, i) ==> St() == st && logged == lg
        invariant tot == 0 || tot == m || (off + tot) % BSIZE == 0
        invariant Fills(st, St(), i, Slots(off, off + tot)) && |Holes(st, i, Slots(off, off + tot))| == old(Free()) - Free()
        invariant |Holes(st, i, Slots(off, off + tot))| > 0 ==> outstanding > 0
      {
        var o := off + tot;
        var c := Chunk(o, m - tot);
        ghost var st1 := St();
        InvShape(l, st1);
        BlockBelowEnd(st, i, o);
        NextHoles(st, st1, i, off, o, c);
        SlotsFewer(off, o + c, end);
        HolesFewer(st, i, Slots(off, o + c), Slots(off, end));
        var chunk := ReadChunk(i, o, c);
        if chunk == None {
          return Panic, [];
        }
        CopyMore(st, st1, i, off, dst, chunk.value);
        SameBytesTrans(st, st1, St());
        FillsTwice(st, st1, St(), i, Slots(off, o), Via(SlotOf(o / BSIZE)));
        dst := dst + chunk.value;
        tot := tot + c;
      }
      r := Ret(m);
      CopyAll(st, i, off, dst);
    }

    /** One turn of itrunc's first loop. */
    method TruncDirect(i: nat, s: nat) returns (ok: bool)
      requires Valid() && i < |inodes| && s < NDIRECT
      modifies this`blocks, this`inodes, this`owner, this`logged
      ensures !ok ==> outstanding == 0
      ensures ok ==> Valid() && Disk() == old(Disk()) && SameDataArea(l, old(blocks), blocks)
      ensures ok ==> inodes == WithAddr(old(inodes), i, s, 0) && owner == OwnerWithout(old(owner), i, s, s + 1)
    {
      hide Inv, InUse, Mark, Logging, InodesOf;
      ghost var st := St();
      InvShape(l, st);
      ok := true;
      if inodes[i].addrs[s] != 0 {
        var b := inodes[i].addrs[s];
        FreeDirectKeepsInv(l, st, i, s);
        ok := Bfree(b);
        if !ok {
          return;
        }
        inodes := WithAddr(inodes, i, s, 0);
        owner := owner - {b};
      } else {
        NothingOwned(l, st, i, s);
        assert inodes[i].addrs[s := 0] == inodes[i].addrs;
        assert inodes == WithAddr(inodes, i, s, 0);
      }
    }

    /** itrunc's second half: free what the indirect block lists, then the indirect block. */
    method TruncIndirect(i: nat) returns (ok: bool)
      requires Valid() && i < |inodes| && inodes[i].addrs[NDIRECT] != 0
      modifies this`blocks, this`inodes, this`owner, this`logged
      ensures !ok ==> outstanding == 0
      ensures ok ==> Valid() && Disk() == old(Disk()) && SameDataArea(l, old(blocks), blocks)
      ensures ok ==> inodes == WithAddr(old(inodes), i, NDIRECT, 0) && owner == OwnerWithout(old(owner), i, NDIRECT, SLOTS)
    {
      hide Inv, InUse, Mark, Word, Detached, Logging, InodesOf;
      ghost var st := St();
      InvShape(l, st);
      RemainingLast(l, st, i);
      DetachIndirect(l, st, i);
      IndirectBlocks(l, st, i, 0);
      ghost var cleared, left := WithAddr(inodes, i, NDIRECT, 0), owner - OwnedFrom(st, i, NDIRECT);
      DetachedIs(st, i);
      var ind := inodes[i].addrs[NDIRECT];
      var a := blocks[ind];
      var j := 0;
      while j < NINDIRECT
        invariant 0 <= j <= NINDIRECT && l.Valid(blocks) && SameDataArea(l, st.blocks, blocks)
        invariant inodes == st.inodes && owner == st.owner && Kept() && Disk() == old(Disk())
        invariant Inv(l, State(blocks, cleared, left, Remaining(st, i, j)))
      {
        RemainingStep(l, st, i, j);
        var e := Word(a, j);
        if e != 0 {
          ok := FreeListed(e, cleared, left, Remaining(st, i, j));
          if !ok {
            return;
          }
        } else {
          ZeroNotOwned(l, st);
          assert Remaining(st, i, j) - {e} == Remaining(st, i, j);
        }
        j := j + 1;
      }
      ok := FreeListed(ind, cleared, left, {ind});
      if !ok {
        return;
      }
      assert {ind} - {ind} == {};
      inodes := WithAddr(inodes, i, NDIRECT, 0);
      owner := left;
      OwnedFromAll(l, st, i);
    }

    /** bfree of a block that has been detached from its inode. */
    method FreeListed(b: nat, ghost nodes: seq<Inode>, ghost left: map<nat, Slot>, ghost pending: set<nat>) returns (ok: bool)
      requires l.Valid(blocks) && b in pending && Inv(l, State(blocks, nodes, left, pending))
      modifies this`blocks, this`logged
      ensures ok <==> outstanding > 0
      ensures l.Valid(blocks) && SameDataArea(l, old(blocks), blocks)
      ensures old(Kept()) ==> Kept() && Disk() == old(Disk())
      ensures ok ==> Inv(l, State(blocks, nodes, left, pending - {b}))
    {
      hide Inv, InUse, Mark, Logging, InodesOf;
      ghost var st := State(blocks, nodes, left, pending);
      FreeKeepsInv(l, st, b);
      BitBlockBelowData(l, blocks, b);
      ok := Bfree(b);
      assert ok ==> Freed(l, st, b) == State(blocks, nodes, left, pending - {b});
    }

    /** itrunc: every block of the inode is freed, nothing else is, and "freeing free block" cannot happen; it fails only
        outside a transaction. */
    method Itrunc(i: nat) returns (ok: bool)
      requires Valid() && i < |inodes|
      modifies this`blocks, this`inodes, this`owner, this`logged
      ensures ok <==> outstanding > 0
      ensures ok ==> Valid() && SameDataArea(l, old(blocks), blocks)
      ensures ok ==> |inodes| == |old(inodes)| && forall k :: 0 <= k < |inodes| && k != i ==> inodes[k] == old(inodes)[k]
      ensures ok ==> inodes[i].(addrs := []) == old(inodes)[i].(size := 0, addrs := [])
      ensures ok ==> forall s :: 0 <= s <= NDIRECT ==> inodes[i].addrs[s] == 0
      ensures ok ==> Disk() == old(Disk())[i := inodes[i]] && owner == OwnerWithout(old(owner), i, 0, SLOTS)
      ensures ok ==> forall k, o :: 0 <= k < |inodes| && k != i && |inodes[k].addrs| == NDIRECT + 1 && 0 <= o < MAXBYTES ==>
                FileByte(blocks, inodes[k], o) == FileByte(old(blocks), inodes[k], o)
      ensures ok ==> forall b :: 0 <= b < l.size ==>
                (Taken(l, blocks, b) <==> Taken(l, old(blocks), b) && !(b in old(owner) && old(owner)[b].inum == i))
    {
      hide Inv, InUse, BitBlock, FileByte, Logging, InodesOf, SameHolds, SameBytes;
      ghost var st := St();
      InvShape(l, st);
      ok := true;
      var s := 0;
      while s < NDIRECT
        invariant 0 <= s <= NDIRECT && ok && Valid() && SameDataArea(l, st.blocks, blocks)
        invariant |inodes| == |st.inodes| && |inodes[i].addrs| == NDIRECT + 1 && Disk() == old(Disk())
        invariant forall k :: 0 <= k < |inodes| && k != i ==> inodes[k] == st.inodes[k]
        invariant inodes[i].(addrs := []) == st.inodes[i].(addrs := [])
        invariant forall t :: 0 <= t < s ==> inodes[i].addrs[t] == 0
        invariant owner == OwnerWithout(st.owner, i, 0, s)
      {
        ok := TruncDirect(i, s);
        if !ok {
          return;
        }
        OwnerWithoutMore(st.owner, i, s, s + 1);
        s := s + 1;
      }
      if inodes[i].addrs[NDIRECT] != 0 {
        ok := TruncIndirect(i);
        if !ok {
          return;
        }
        OwnerWithoutMore(st.owner, i, NDIRECT, SLOTS);
      } else {
        NoEntriesOwned(l, St(), i);
        OwnerWithoutMore(st.owner, i, NDIRECT, SLOTS);
      }
      ResizeKeeps(l, St(), i, 0);
      inodes := inodes[i := inodes[i].(size := 0)];
      ok := Iupdate(i);
      if !ok {
        return;
      }
      TakenExactly(l, st);
      TakenExactly(l, St());
      OthersKeepBytes(l, st, blocks);
    }

    /** One turn of filewrite's loop: a transaction around writei. When writei returns -1 nothing has been logged and
        end_op has nothing to commit. */
    method WriteOp(i: nat, chunk: seq<byte>, off: nat) returns (r: Outcome, ghost x: Txn)
      requires Valid() && i < |inodes| && off <= inodes[i].size <= MAXBYTES && |chunk| <= MAXCHUNK
      modifies this
      ensures r == Panic ==> DiskFull(l, blocks) && begun == old(St()) && txns == old(txns)
      ensures r == Panic <==>
                off + |chunk| <= MAXBYTES && |chunk| > 0 && old(Free()) < |old(Holes(St(), i, Slots(off, off + |chunk|)))|
      ensures r != Panic ==> outstanding == old(outstanding)
      ensures r == Ret(-1) <==> off + |chunk| > MAXBYTES
      ensures r == Ret(-1) ==> Valid() && St() == old(St()) && logged == {} && txns == old(txns)
      ensures r != Panic && r != Ret(-1) ==>
                && Fills(old(St()), St(), i, Slots(off, off + |chunk|))
                && Free() == old(Free()) - |old(Holes(St(), i, Slots(off, off + |chunk|)))|
      ensures r != Panic && r != Ret(-1) ==>
                && Valid() && r == Ret(|chunk|) && x.before == old(St()) && x.after == St() && txns == old(txns) + [x]
                && i < |inodes| && inodes[i].size <= MAXBYTES
                && Contents(St(), i) == Overlay(old(Contents(St(), i)), off, chunk)
                && Written(old(St()), St(), i, off, chunk)
                && (forall k :: 0 <= k < |inodes| && k != i ==> inodes[k] == old(inodes)[k])
      ensures r != Panic && r != Ret(-1) && NoHoles(old(St()), i) ==>
                NoHoles(St(), i) && (old(Disk() == inodes) ==> Disk() == inodes && Proper(l, inodestart, ninodes, x))
    {
      hide Inv, Contents, Written, NoHoles, WriteLogged, Overlay, Logging, InodesOf, Fills, Slots, Holes, FreeBlocks;
      BeginOp();
      ghost var st := St();
      InvShape(l, st);
      ghost var blks, bms;
      x := Txn(st, st, {});
      r, blks, bms := Writei(i, chunk, off);
      if r == Panic {
        return;
      }
      if r == Ret(-1) {
        outstanding := outstanding - 1;
        return;
      }
      x := Txn(st, St(), logged);
      if NoHoles(st, i) {
        TransactionFits(st, St(), i, off, |chunk|, logged, blks, bms, inodestart + i / IPB);
      }
      EndOp();
    }

    /** filewrite on an inode: MAXCHUNK bytes per transaction. `done` is how far the file offset has moved. */
    method Filewrite(i: nat, src: seq<byte>, off: nat) returns (r: Outcome, done: nat)
      requires Valid() && i < |inodes| && off <= inodes[i].size <= MAXBYTES && |src| < 0x8000_0000
      modifies this
      ensures done <= |src| && (r == Panic ==> DiskFull(l, blocks))
      ensures r != Panic ==> outstanding == old(outstanding) && |old(Holes(St(), i, Slots(off, off + done)))| <= old(Free())
      ensures r != Panic ==> r == Ret(if off + |src| <= MAXBYTES then |src| else -1) && (r != Ret(-1) ==> done == |src|)
      ensures off + |src| <= MAXBYTES && |old(Holes(St(), i, Slots(off, off + |src|)))| <= old(Free()) ==> r == Ret(|src|)
      ensures r != Panic ==> Valid() && HasContents(St(), i, Overlay(old(Contents(St(), i)), off, src[..done]))
      ensures r != Panic ==> OthersKept(old(St()), St(), i)
      ensures NoHoles(old(St()), i) && r != Panic ==> NoHoles(St(), i) && (old(Disk() == inodes) ==> Disk() == inodes)
      ensures old(txns) <= txns
      ensures var ts := txns[|old(txns)|..];
              && done == ChunkEnd(|src|, |ts|) && (|ts| > 0 ==> ChunkEnd(|src|, |ts| - 1) < done)
              && OnePer1536(|src|, |ts|, done)
              && (r == Ret(-1) ==> off + ChunkEnd(|src|, |ts| + 1) > MAXBYTES)
              && (r == Panic ==> var o := off + ChunkEnd(|src|, |ts| + 1);
                                 o <= MAXBYTES && old(Free()) < |old(Holes(St(), i, Slots(off, o)))|)
              && WriteHistory(ts, old(St()), i, old(Contents(St(), i)), off, src)
              && (if r == Panic then begun else St()) == StateAfter(ts, old(St()), |ts|)
              && (NoHoles(old(St()), i) && old(Disk() == inodes) ==> AllProper(l, inodestart, ninodes, ts))
    {
      hide Inv, Contents, Written, NoHoles, WriteLogged, Overlay, Logging, InodesOf, OthersKept, Wrote, WriteHistory, AllProper,
        ChunkEnd, OnePer1536, StateAfter, Proper, Fills, Slots, Holes, FreeBlocks, DiskFull, Fs.Kept;
      ghost var st := St();
      InvShape(l, st);
      ghost var c := Contents(st, i);
      ghost var ts: seq<Txn> := [];
      done := 0;
      HistoryStarts(st, i, c, off, src);
      HolesStart(st, i, off);
      SlotsNone(off);
      FillsNone(st, i);
      while done < |src|
        invariant 0 <= done <= |src| && Valid() && txns == old(txns) + ts
        invariant done == ChunkEnd(|src|, |ts|) && (|ts| > 0 ==> ChunkEnd(|src|, |ts| - 1) < done)
        invariant HasContents(St(), i, Overlay(c, off, src[..done])) && off + done <= inodes[i].size
        invariant St() == StateAfter(ts, st, |ts|) && OthersKept(st, St(), i)
        invariant WriteHistory(ts, st, i, c, off, src) && outstanding == old(outstanding)
        invariant Fills(st, St(), i, Slots(off, off + done)) && |Holes(st, i, Slots(off, off + done))| == old(Free()) - Free()
        invariant NoHoles(st, i) ==> NoHoles(St(), i)
        invariant NoHoles(st, i) && old(Disk() == inodes) ==> Disk() == inodes && AllProper(l, inodestart, ninodes, ts)
      {
        var n1 := if |src| - done > MAXCHUNK then MAXCHUNK else |src| - done;
        ChunkCount(|src|, |ts|, done);
        ghost var st1, x := St(), Txn(St(), St(), {});
        InvShape(l, st1);
        ChunkNext(|src|, |ts|, done, n1);
        SlotsJoin(off, off + done, off + done + n1);
        HolesTwice(st, st1, i, Slots(off, off + done), Slots(off + done, off + done + n1));
        r, x := WriteOp(i, src[done..done + n1], off + done);
        if r == Panic {
          SlotsFewer(off, off + done + n1, off + |src|);
          HolesFewer(st, i, Slots(off, off + done + n1), Slots(off, off + |src|));
          return;
        }
        if r == Ret(-1) {
          return;
        }
        InvShape(l, St());
        ChunkWrote(x, i, c, off, src, |ts|, done, n1);
        OthersKeptTrans(st, st1, St(), i);
        HistoryGrows(ts, x, st, i, c, off, src);
        FillsTwice(st, st1, St(), i, Slots(off, off + done), Slots(off + done, off + done + n1));
        if NoHoles(st, i) && old(Disk() == inodes) {
          ProperGrows(l, inodestart, ninodes, ts, x);
        }
        ts := ts + [x];
        done := done + n1;
      }
      ChunkCount(|src|, |ts|, done);
      r := Ret(|src|);
    }
  }
}
