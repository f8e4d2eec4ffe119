/** What mkfs's rounding of the root directory leads to (mkfs.c, fs.c, file.c): a directory that ends at a block boundary
    gets a hole, a read of it outside a transaction panics, and an entry linked into it is lost with the in-core inode. */
module RootHole {
  import opened Blocks
  import opened Bitmap
  import opened Dinodes
  import opened BlockMap
  import opened FileContents
  import opened FileTransactions
  import Files
  import opened Mkfs

  const ROOTINO: nat := 1
  const T_DIR: uint16 := 1

  function Nothing(n: nat): (s: seq<byte>)
    ensures |s| == n
  {
    seq(n, _ => 0)
  }

  lemma OneSlot(bn: nat, n: nat)
    requires bn < NDIRECT && 0 < n <= BSIZE
    ensures Slots(bn * BSIZE, bn * BSIZE + n) == {bn}
  {
    var off, o := bn * BSIZE, bn * BSIZE + n;
    forall s: nat | s < SLOTS ensures Touches(off, o, s) <==> s == bn {
      if s > NDIRECT {
        assert (s - 1) * BSIZE >= NDIRECT * BSIZE >= o;
      }
    }
  }

  lemma HolesAtMost(st: State, i: nat, bn: nat)
    requires i < |st.inodes| && |st.inodes[i].addrs| == NDIRECT + 1 && bn < NDIRECT
    ensures |Holes(st, i, {bn})| == if st.inodes[i].addrs[bn] == 0 then 1 else 0
  {
    HolesOne(st, i, bn);
  }

  /** The block mkfs would hand out next is free. */
  lemma NextIsFree(l: Layout, blocks: seq<Block>, n: nat)
    requires l.Valid(blocks) && l.size <= BPB && n < l.size && blocks[l.bmap := Used(n)] == blocks
    ensures |FreeBlocks(l, blocks)| > 0
  {
    FinishedBits(l, blocks, n, n);
    assert n in FreeBlocks(l, blocks);
  }

  lemma NewIsTight(ino: Inode)
    requires ino.addrs == NOADDRS && ino.size == 0
    ensures Tight(ino)
  {
  }

  lemma TightEnds(ino: Inode)
    requires |ino.addrs| == NDIRECT + 1 && Tight(ino) && ino.size == BSIZE
    ensures ino.addrs[1] == 0
  {
    assert !Touches(0, BSIZE, 1);
  }

  lemma EmptyContents(st: State, i: nat)
    requires i < |st.inodes| && |st.inodes[i].addrs| == NDIRECT + 1 && st.inodes[i].size == 0
    ensures Contents(st, i) == []
  {
  }

  /** An image whose root directory has 32 entries. */
  method MakeRoot(sb: Block, dir: seq<byte>) returns (img: Image)
    requires |dir| == BSIZE
    ensures fresh(img) && img.Valid() && img.Disk() == img.inodes && img.ninodes == NINODES && img.freeinode == 2
    ensures img.freeblock < img.l.size && img.inodes[ROOTINO].size == BSIZE && img.inodes[ROOTINO].addrs[1] == 0
    ensures HasContents(img.St(), ROOTINO, dir)
  {
    hide Inv, InodesOf, Contents, OthersKept, NoHoles, Holes, SameHolds, SameBytes, FreeBlocks, Fills, Slots, Tight, BlankFrom, Used;
    var l := Layout(FSSIZE, BMAPSTART, NMETA);
    SuperBlock(seq(FSSIZE, _ => Zeroes()));
    img := new Image(l, INODESTART, NINODES, sb);
    var root := img.Ialloc(T_DIR);
    InvShape(l, img.St());
    OneSlot(0, BSIZE);
    HolesAtMost(img.St(), root, 0);
    NewIsTight(img.inodes[root]);
    EmptyContents(img.St(), root);
    var ok := img.Iappend(root, dir);
    TightEnds(img.inodes[root]);
    assert [] + dir == dir;
  }

  /** The kernel booted from it once its size is rounded. */
  method BootRounded(sb: Block, dir: seq<byte>) returns (fs: Files.Fs)
    requires |dir| == BSIZE
    ensures fresh(fs) && fs.Valid() && fs.Disk() == fs.inodes && fs.outstanding == 0 && fs.Free() > 0
    ensures |fs.inodes| == NINODES && fs.inodes[ROOTINO].size == 2 * BSIZE && fs.inodes[ROOTINO].addrs[1] == 0
    ensures HasContents(fs.St(), ROOTINO, dir + Nothing(BSIZE))
  {
    hide Inv, InodesOf, Contents, OthersKept, NoHoles, Holes, SameHolds, SameBytes, FreeBlocks, Tight, BlankFrom;
    var img := MakeRoot(sb, dir);
    img.RoundSize(ROOTINO);
    var ok := img.Balloc();
    NextIsFree(img.l, img.blocks, img.freeblock);
    fs := img.Boot();
    InvShape(fs.l, fs.St());
    RoundedContents(fs.St(), dir);
  }

  lemma RoundedContents(st: State, dir: seq<byte>)
    requires ROOTINO < |st.inodes| && |st.inodes[ROOTINO].addrs| == NDIRECT + 1 && |dir| == BSIZE
    requires st.inodes[ROOTINO].size == 2 * BSIZE && st.inodes[ROOTINO].addrs[1] == 0 && Contents(st, ROOTINO)[..BSIZE] == dir
    ensures HasContents(st, ROOTINO, dir + Nothing(BSIZE))
  {
    var c, v := Contents(st, ROOTINO), dir + Nothing(BSIZE);
    forall o | 0 <= o < |c| ensures c[o] == v[o] {
      if o < BSIZE {
        assert c[..BSIZE][o] == c[o];
      } else {
        assert o / BSIZE == 1;
      }
    }
  }

  /** fileread of the last part of the directory, with no operation open: log_write panics in the middle of the read. */
  method ReadRoot(sb: Block, dir: seq<byte>) returns (r: Outcome)
    requires |dir| == BSIZE
    ensures r == Panic
  {
    hide Inv, InodesOf, Holes, Slots, FreeBlocks;
    var fs := BootRounded(sb, dir);
    OneSlot(1, 16);
    HolesAtMost(fs.St(), ROOTINO, 1);
    var dst;
    r, dst := fs.Readi(ROOTINO, BSIZE, 16);
  }

  /** In the file system that a reboot reads from these blocks the block of the entry is marked in use and nobody's. */
  ghost predicate Leaked(fs: Files.Fs)
    reads fs
  {
    forall owner :: !Inv(fs.l, State(fs.blocks, fs.Disk(), owner, {}))
  }

  /** dirlink of a new entry into that directory: the kernel in memory has it; on the disk the directory is as before, the
      entry's bytes read as zeroes, and a block is lost. */
  method LostEntry(sb: Block, dir: seq<byte>, entry: seq<byte>) returns (fs: Files.Fs)
    requires |dir| == BSIZE && |entry| == 16
    ensures fresh(fs) && fs.Valid() && fs.outstanding == 0
    ensures HasContents(fs.St(), ROOTINO, dir + entry + Nothing(BSIZE - 16))
    ensures fs.Disk() != fs.inodes && ROOTINO < |fs.Disk()|
    ensures HasContents(State(fs.blocks, fs.Disk(), map[], {}), ROOTINO, dir + Nothing(BSIZE))
    ensures Leaked(fs)
  {
    hide Inv, InodesOf, Holes, Slots, FreeBlocks, Contents, Written, NoHoles, WriteLogged, Fills;
    fs := BootRounded(sb, dir);
    OneSlot(1, 16);
    HolesAtMost(fs.St(), ROOTINO, 1);
    ghost var st := fs.St();
    fs.BeginOp();
    var r;
    ghost var blks, bms;
    r, blks, bms := fs.Writei(ROOTINO, entry, BSIZE);
    fs.EndOp();
    InvShape(fs.l, fs.St());
    assert Touches(BSIZE, BSIZE + 16, 1);
    EntryOver(dir, entry);
    LostBytes(st, fs.St(), dir, entry);
    BlockLeaked(fs.l, st, fs.St());
  }

  lemma EntryOver(dir: seq<byte>, entry: seq<byte>)
    requires |dir| == BSIZE && |entry| == 16
    ensures Overlay(dir + Nothing(BSIZE), BSIZE, entry) == dir + entry + Nothing(BSIZE - 16)
  {
  }

  /** Between the boot and the end of the write only slot 1 of the root changed, from nothing to a block. */
  ghost predicate Filled(st: State, st': State) {
    && ROOTINO < |st.inodes| == |st'.inodes| && |st.inodes[ROOTINO].addrs| == NDIRECT + 1 == |st'.inodes[ROOTINO].addrs|
    && st.inodes[ROOTINO].addrs[1] == 0 && Fills(st, st', ROOTINO, {1})
    && st'.inodes == st.inodes[ROOTINO := st.inodes[ROOTINO].(addrs := st'.inodes[ROOTINO].addrs)]
  }

  lemma FilledAddrs(st: State, st': State)
    requires Filled(st, st')
    ensures st'.inodes[ROOTINO].addrs[1] != 0
    ensures forall s :: 0 <= s <= NDIRECT && s != 1 ==> st'.inodes[ROOTINO].addrs[s] == st.inodes[ROOTINO].addrs[s]
  {
    forall s: nat | s <= NDIRECT
      ensures if s == 1 then st'.inodes[ROOTINO].addrs[s] != 0 else st'.inodes[ROOTINO].addrs[s] == st.inodes[ROOTINO].addrs[s]
    {
      assert IsSlot(st, Slot(ROOTINO, s)) && IsSlot(st', Slot(ROOTINO, s)) && FillsAt(st, st', ROOTINO, {1}, Slot(ROOTINO, s));
    }
  }

  lemma LostBytes(st: State, st': State, dir: seq<byte>, entry: seq<byte>)
    requires Filled(st, st') && |dir| == BSIZE && |entry| == 16 && st.inodes[ROOTINO].size == 2 * BSIZE
    requires HasContents(st, ROOTINO, dir + Nothing(BSIZE)) && Written(st, st', ROOTINO, BSIZE, entry)
    ensures HasContents(State(st'.blocks, st.inodes, map[], {}), ROOTINO, dir + Nothing(BSIZE))
  {
    FilledAddrs(st, st');
    var d := State(st'.blocks, st.inodes, map[], {});
    var c, v := Contents(st, ROOTINO), Contents(d, ROOTINO);
    forall o | 0 <= o < |v| ensures v[o] == c[o] {
      assert c[o] == FileByte(st.blocks, st.inodes[ROOTINO], o);
      if o < BSIZE {
        assert o / BSIZE == 0;
        assert FileByte(st'.blocks, st'.inodes[ROOTINO], o) == FileByte(st.blocks, st.inodes[ROOTINO], o);
      } else {
        assert o / BSIZE == 1;
      }
    }
  }

  lemma BlockLeaked(l: Layout, st: State, st': State)
    requires Filled(st, st') && Inv(l, st') && st'.pending == {}
    ensures forall owner :: !Inv(l, State(st'.blocks, st.inodes, owner, {}))
  {
    forall owner ensures !Inv(l, State(st'.blocks, st.inodes, owner, {})) {
      OneLeaked(l, st, st', owner);
    }
  }

  lemma OneLeaked(l: Layout, st: State, st': State, owner: map<nat, Slot>)
    requires Filled(st, st') && Inv(l, st') && st'.pending == {}
    ensures !Inv(l, State(st'.blocks, st.inodes, owner, {}))
  {
    hide Word, InUse;
    FilledAddrs(st, st');
    var d, b, me := State(st'.blocks, st.inodes, owner, {}), st'.inodes[ROOTINO].addrs[1], Slot(ROOTINO, 1);
    assert IsSlot(st', me) && Holds(st', me) == b;
    forall x | IsSlot(d, x) && x != me ensures IsSlot(st', x) && Holds(st', x) == Holds(d, x) {
    }
    assert Inv(l, d) ==> b in owner && owner[b] != me;
  }
}
