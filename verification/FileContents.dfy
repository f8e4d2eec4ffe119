/** What files contain, and what block allocation, writing and truncation do to that, as facts about values. */
module FileContents {
  import opened Blocks
  import opened Bitmap
  import opened Dinodes
  import opened BlockMap

  /** Position of bit b + bi within the bitmap block that starts at bit b. */
  lemma BitPosition(b: nat, bi: nat)
    requires b % BPB == 0 && bi < BPB
    ensures (b + bi) / BPB == b / BPB && (b + bi) % BPB == bi
  {
    assert b == b / BPB * BPB;
  }

  /** No owned block has been written. */
  ghost predicate KeepsOwned(st: State, blocks: seq<Block>) {
    |blocks| == |st.blocks| && forall b :: b in st.owner && b < |blocks| ==> blocks[b] == st.blocks[b]
  }

  /** No owned block except indirect blocks has been written. */
  ghost predicate KeepsData(st: State, blocks: seq<Block>) {
    |blocks| == |st.blocks| && forall b :: b in st.owner && b < |blocks| && st.owner[b].s != NDIRECT ==> blocks[b] == st.blocks[b]
  }

  lemma AllocateKeepsOwned(l: Layout, st: State, b: nat)
    requires Inv(l, st) && b < l.size && BitBlock(l, b) < |st.blocks| && !InUse(l, st.blocks, b)
    ensures KeepsOwned(st, Allocated(l, st, b).blocks)
  {
    BitBlockBelowData(l, st.blocks, b);
    AllocateKeepsInv(l, st, b);
  }

  /** balloc and the store into addrs[s] taken together. */
  lemma AllocateLinkDirect(l: Layout, st: State, i: nat, s: nat, b: nat)
    requires Inv(l, st) && st.pending == {} && i < |st.inodes| && s <= NDIRECT && st.inodes[i].addrs[s] == 0
    requires b < l.size && BitBlock(l, b) < |st.blocks| && !InUse(l, st.blocks, b)
    ensures var st' := LinkedDirect(Allocated(l, st, b), i, s, b);
            && l.data <= b && b !in st.owner && st'.pending == {} && Inv(l, st') && Gained(st, st', Slot(i, s), b)
            && st'.blocks[b] == Zeroes() && KeepsData(st, st'.blocks)
  {
    hide InUse, Mark, Word;
    AllocateKeepsInv(l, st, b);
    AllocateKeepsOwned(l, st, b);
    var st1 := Allocated(l, st, b);
    LinkDirectKeepsInv(l, st1, i, s, b);
    assert LinkedDirect(st1, i, s, b).pending == {};
  }

  /** balloc and the store into the indirect block taken together. */
  lemma AllocateLinkEntry(l: Layout, st: State, i: nat, j: nat, b: nat)
    requires Inv(l, st) && st.pending == {} && i < |st.inodes| && j < NINDIRECT && st.inodes[i].addrs[NDIRECT] != 0
    requires Holds(st, Slot(i, NDIRECT + 1 + j)) == 0
    requires b < l.size && BitBlock(l, b) < |st.blocks| && !InUse(l, st.blocks, b)
    ensures var ind := st.inodes[i].addrs[NDIRECT];
            && l.data <= b && b !in st.owner && ind < l.size && ind != b && Allocated(l, st, b).blocks[ind] == st.blocks[ind]
            && (var st' := LinkedEntry(Allocated(l, st, b), i, j, b);
                && st'.pending == {} && Inv(l, st') && Gained(st, st', Slot(i, NDIRECT + 1 + j), b)
                && st'.blocks[b] == Zeroes() && KeepsData(st, st'.blocks))
  {
    hide InUse, Mark, Word, PutWord;
    IndirectBlocks(l, st, i, j);
    AllocateKeepsInv(l, st, b);
    AllocateKeepsOwned(l, st, b);
    var st1 := Allocated(l, st, b);
    LinkEntryKeepsInv(l, st1, i, j, b);
    assert LinkedEntry(st1, i, j, b).pending == {};
  }

  // ---- file contents ----

  const MAXBYTES: nat := 69120  // MAXFILE * BSIZE

  /** Byte `off` of a file; a block that was never allocated reads as zeroes. */
  function FileByte(blocks: seq<Block>, ino: Inode, off: nat): byte
    requires |ino.addrs| == NDIRECT + 1 && off < MAXBYTES
  {
    var a := Addr(blocks, ino, SlotOf(off / BSIZE));
    if a == 0 || a >= |blocks| then 0 else blocks[a][off % BSIZE]
  }

  /** Where byte `off` of a file is: in the block that addrs names for the first seven blocks, and behind them the block
      that the indirect block names, four bytes for each; a file has zeroes where there is no block. */
  lemma FileByteAt(blocks: seq<Block>, ino: Inode, off: nat, a: nat)
    requires |ino.addrs| == NDIRECT + 1 && off < MAXBYTES
    requires if off < 7 * 512 then a == ino.addrs[off / 512]
             else if ino.addrs[7] == 0 || ino.addrs[7] >= |blocks| then a == 0
             else Number(blocks[ino.addrs[7]], 4 * (off / 512 - 7), 4, a)
    ensures FileByte(blocks, ino, off) == if a == 0 || a >= |blocks| then 0 else blocks[a][off % 512]
  {
    hide Number, Word;
    if off >= 7 * 512 && ino.addrs[7] != 0 && ino.addrs[7] < |blocks| {
      var b, j := blocks[ino.addrs[7]], off / 512 - 7;
      WordIsNumber(b, j);
      NumberOnce(b, 4 * j, 4, Word(b, j), a);
    }
  }

  ghost predicate SameBytes(st: State, st': State) {
    && SameSlots(st, st')
    && forall k, off :: 0 <= k < |st.inodes| && |st.inodes[k].addrs| == NDIRECT + 1 && 0 <= off < MAXBYTES ==>
         FileByte(st'.blocks, st'.inodes[k], off) == FileByte(st.blocks, st.inodes[k], off)
  }

  /** Blocks are only added to inodes. */
  ghost predicate Grew(st: State, st': State) {
    SameSlots(st, st') && forall x :: IsSlot(st, x) && Holds(st, x) != 0 ==> IsSlot(st', x) && Holds(st', x) == Holds(st, x)
  }

  // ---- which slots are filled ----

  /** The slots on the way to slot s: itself, and the indirect block's if it lies behind that. */
  function Via(s: nat): set<nat> {
    if s > NDIRECT then {NDIRECT, s} else {s}
  }

  ghost predicate FillsAt(st: State, st': State, i: nat, slots: set<nat>, x: Slot)
    requires IsSlot(st, x) && IsSlot(st', x)
  {
    if x.inum == i && x.s in slots then Holds(st', x) != 0 && (Holds(st, x) != 0 ==> Holds(st', x) == Holds(st, x))
    else Holds(st', x) == Holds(st, x)
  }

  /** Of these slots of inode i every empty one got a block; nothing else moved. */
  ghost predicate Fills(st: State, st': State, i: nat, slots: set<nat>) {
    SameSlots(st, st') && forall x :: IsSlot(st, x) ==> IsSlot(st', x) && FillsAt(st, st', i, slots, x)
  }

  lemma FillsTwice(st: State, st1: State, st2: State, i: nat, a: set<nat>, b: set<nat>)
    requires Fills(st, st1, i, a) && Fills(st1, st2, i, b)
    ensures Fills(st, st2, i, a + b)
  {
    hide Holds;
    forall x | IsSlot(st, x) ensures IsSlot(st2, x) && FillsAt(st, st2, i, a + b, x) {
      assert IsSlot(st1, x) && FillsAt(st, st1, i, a, x) && FillsAt(st1, st2, i, b, x);
    }
  }

  lemma FillsNone(st: State, i: nat)
    ensures Fills(st, st, i, {})
  {
  }

  lemma FillsSame(st: State, st1: State, st2: State, i: nat, slots: set<nat>)
    requires Fills(st, st1, i, slots) && SameHolds(st1, st2)
    ensures Fills(st, st2, i, slots)
  {
    hide Holds;
    forall x | IsSlot(st, x) ensures IsSlot(st2, x) && FillsAt(st, st2, i, slots, x) {
      assert IsSlot(st1, x) && FillsAt(st, st1, i, slots, x);
    }
  }

  /** The inode itself stays as it is exactly when none of its own slots among these was empty. */
  lemma FillsAddrs(st: State, st': State, i: nat, off: nat, o: nat)
    requires i < |st.inodes| && |st.inodes[i].addrs| == NDIRECT + 1 && Fills(st, st', i, Slots(off, o))
    ensures st'.inodes[i].addrs == st.inodes[i].addrs <==> NoneMissing(st.inodes[i], off, o)
  {
    forall s: nat | s <= NDIRECT
      ensures Touches(off, o, s) ==> st'.inodes[i].addrs[s] != 0
      ensures st.inodes[i].addrs[s] != 0 || !Touches(off, o, s) ==> st'.inodes[i].addrs[s] == st.inodes[i].addrs[s]
    {
      assert IsSlot(st, Slot(i, s)) && IsSlot(st', Slot(i, s)) && FillsAt(st, st', i, Slots(off, o), Slot(i, s));
    }
  }

  /** No slot of the inode itself that the bytes [off, o) lie behind is empty. */
  predicate NoneMissing(ino: Inode, off: nat, o: nat)
    requires |ino.addrs| == NDIRECT + 1
  {
    forall s :: 0 <= s <= NDIRECT && Touches(off, o, s) ==> ino.addrs[s] != 0
  }

  /** The empty ones among these slots. */
  ghost function Holes(st: State, i: nat, slots: set<nat>): (r: set<nat>)
    requires i < |st.inodes| && |st.inodes[i].addrs| == NDIRECT + 1
  {
    set s | s in slots && s < SLOTS && Addr(st.blocks, st.inodes[i], s) == 0
  }

  lemma HolesOne(st: State, i: nat, s: nat)
    requires i < |st.inodes| && |st.inodes[i].addrs| == NDIRECT + 1 && s < SLOTS
    ensures Holes(st, i, {s}) == if Addr(st.blocks, st.inodes[i], s) == 0 then {s} else {}
  {
  }

  lemma HolesFewer(st: State, i: nat, a: set<nat>, b: set<nat>)
    requires i < |st.inodes| && |st.inodes[i].addrs| == NDIRECT + 1 && a <= b
    ensures |Holes(st, i, a)| <= |Holes(st, i, b)|
  {
    var x, y := Holes(st, i, a), Holes(st, i, b);
    assert y == x + (y - x);
  }

  /** Filling some slots and then others takes a block for each empty one of all. */
  lemma HolesTwice(st: State, st1: State, i: nat, a: set<nat>, b: set<nat>)
    requires i < |st.inodes| && |st.inodes[i].addrs| == NDIRECT + 1 && Fills(st, st1, i, a)
    ensures |Holes(st, i, a + b)| == |Holes(st, i, a)| + |Holes(st1, i, b)|
  {
    hide Addr;
    var x, y := Holes(st, i, a), Holes(st1, i, b);
    forall s: nat | s < SLOTS
      ensures s in a ==> Addr(st1.blocks, st1.inodes[i], s) != 0
      ensures s !in a ==> Addr(st1.blocks, st1.inodes[i], s) == Addr(st.blocks, st.inodes[i], s)
    {
      assert IsSlot(st, Slot(i, s)) && IsSlot(st1, Slot(i, s)) && FillsAt(st, st1, i, a, Slot(i, s));
    }
    assert Holes(st, i, a + b) == x + y && x !! y;
  }

  /** The bytes [off, o) of a file lie behind slot s. */
  predicate Touches(off: nat, o: nat, s: nat) {
    off < o && if s < NDIRECT then off / BSIZE <= s && s * BSIZE < o
               else if s == NDIRECT then NDIRECT * BSIZE < o
               else off / BSIZE <= s - 1 && (s - 1) * BSIZE < o
  }

  function Slots(off: nat, o: nat): set<nat> {
    set s | 0 <= s < SLOTS && Touches(off, o, s)
  }

  /** One block more. */
  lemma SlotsStep(off: nat, o: nat, m: nat)
    requires off <= o && 0 < m <= BSIZE - o % BSIZE && (o == off || o % BSIZE == 0) && o + m <= MAXBYTES
    ensures o / BSIZE < MAXFILE && Slots(off, o + m) == Slots(off, o) + Via(SlotOf(o / BSIZE))
  {
    var bn := o / BSIZE;
    assert o == bn * BSIZE + o % BSIZE && bn * BSIZE + o % BSIZE + m <= bn * BSIZE + BSIZE;
    forall s: nat | s < SLOTS ensures Touches(off, o + m, s) <==> Touches(off, o, s) || s in Via(SlotOf(bn)) {
      TouchesStep(off, o, m, s);
    }
  }

  lemma TouchesStep(off: nat, o: nat, m: nat, s: nat)
    requires off <= o && 0 < m <= BSIZE - o % BSIZE && (o == off || o % BSIZE == 0) && o + m <= MAXBYTES && s < SLOTS
    requires o / BSIZE < MAXFILE
    ensures Touches(off, o + m, s) <==> Touches(off, o, s) || s in Via(SlotOf(o / BSIZE))
  {
    var bn, c := o / BSIZE, if s < NDIRECT then s else s - 1;
    assert o == bn * BSIZE + o % BSIZE;
    assert off / BSIZE <= bn;
    assert c * BSIZE < o + m <==> c <= bn;
    assert c < bn ==> c * BSIZE + BSIZE <= bn * BSIZE;
    assert o % BSIZE == 0 ==> (c * BSIZE < o <==> c < bn);
  }

  /** Two adjacent ranges. */
  lemma SlotsJoin(off: nat, x: nat, y: nat)
    requires off <= x <= y
    ensures Slots(off, y) == Slots(off, x) + Slots(x, y)
  {
    forall s: nat | s < SLOTS ensures Touches(off, y, s) <==> Touches(off, x, s) || Touches(x, y, s) {
      var c := if s < NDIRECT then s else s - 1;
      assert off / BSIZE <= x / BSIZE;
      assert c * BSIZE >= x ==> x / BSIZE <= c;
      assert off < x && x / BSIZE <= c ==> off / BSIZE <= c;
    }
  }

  lemma SlotsNone(off: nat)
    ensures Slots(off, off) == {}
  {
  }

  /** Linking a zeroed block changes no file's contents. */
  lemma GainKeepsBytes(l: Layout, st: State, st': State, y: Slot, b: nat)
    requires Inv(l, st) && Inv(l, st') && Gained(st, st', y, b) && b < l.size && st'.blocks[b] == Zeroes()
    requires KeepsData(st, st'.blocks)
    ensures SameBytes(st, st') && Grew(st, st')
  {
    forall k, off | 0 <= k < |st.inodes| && 0 <= off < MAXBYTES
      ensures FileByte(st'.blocks, st'.inodes[k], off) == FileByte(st.blocks, st.inodes[k], off)
    {
      var x := Slot(k, SlotOf(off / BSIZE));
      assert IsSlot(st, x);
      if x != y && Holds(st, x) != 0 {
        assert st.owner[Holds(st, x)] == x;
      }
    }
  }

  /** What finding or allocating the block b of slot s of inode i does to the state. */
  ghost predicate Mapped(l: Layout, st: State, st': State, i: nat, s: nat, b: nat) {
    && Inv(l, st') && SameSlots(st, st') && SameBytes(st, st') && Grew(st, st')
    && IsSlot(st, Slot(i, s)) && 0 < b < l.size && Addr(st'.blocks, st'.inodes[i], s) == b
    && st'.inodes == st.inodes[i := st.inodes[i].(addrs := st'.inodes[i].addrs)]
    && (Holds(st, Slot(i, s)) != 0 ==> st' == st) && Fills(st, st', i, Via(s))
  }

  /** The indirect block of inode i, if it has one. */
  ghost function Indirect(st: State, i: nat): set<nat>
    requires i < |st.inodes| && |st.inodes[i].addrs| == NDIRECT + 1
  {
    if st.inodes[i].addrs[NDIRECT] == 0 then {} else {st.inodes[i].addrs[NDIRECT]}
  }

  /** Only the block itself, the inode's indirect block and one bitmap block per allocation are logged. */
  ghost predicate MapLogged(st: State, st': State, i: nat, s: nat, lg: set<nat>, lg': set<nat>, bm: set<nat>) {
    && IsSlot(st, Slot(i, s)) && IsSlot(st', Slot(i, s))
    && |bm| <= (if Holds(st, Slot(i, s)) == 0 then 1 else 0)
    && lg' <= lg + bm + {Addr(st'.blocks, st'.inodes[i], s)} + Indirect(st', i)
    && (Holds(st, Slot(i, s)) != 0 ==> lg' == lg)
  }

  ghost predicate BmapLogged(st: State, st': State, i: nat, s: nat, lg: set<nat>, lg': set<nat>, bm: set<nat>) {
    && IsSlot(st, Slot(i, s)) && IsSlot(st', Slot(i, s))
    && |bm| <= (if Holds(st, Slot(i, s)) == 0 then 1 else 0)
               + (if st.inodes[i].addrs[NDIRECT] != st'.inodes[i].addrs[NDIRECT] then 1 else 0)
    && lg' <= lg + bm + {Addr(st'.blocks, st'.inodes[i], s)} + Indirect(st', i)
    && (Holds(st, Slot(i, s)) != 0 ==> lg' == lg)
    && (st.inodes[i].addrs[NDIRECT] != 0 ==> st'.inodes[i].addrs[NDIRECT] == st.inodes[i].addrs[NDIRECT])
  }

  lemma MappedSame(l: Layout, st: State, i: nat, s: nat, lg: set<nat>)
    requires Inv(l, st) && IsSlot(st, Slot(i, s)) && Holds(st, Slot(i, s)) != 0
    ensures Mapped(l, st, st, i, s, Holds(st, Slot(i, s))) && MapLogged(st, st, i, s, lg, lg, {})
  {
    hide Word, InUse, FileByte;
  }

  lemma MappedGained(l: Layout, st: State, st': State, i: nat, s: nat, b: nat, lg: set<nat>, lg': set<nat>, bb: nat)
    requires Inv(l, st) && Inv(l, st') && Gained(st, st', Slot(i, s), b)
    requires 0 < b < l.size && st'.blocks[b] == Zeroes() && KeepsData(st, st'.blocks)
    requires i < |st'.inodes| && st'.inodes == st.inodes[i := st.inodes[i].(addrs := st'.inodes[i].addrs)]
    requires lg' <= lg + {bb, b} + (if s > NDIRECT && st'.inodes[i].addrs[NDIRECT] != 0 then {st'.inodes[i].addrs[NDIRECT]} else {})
    ensures Mapped(l, st, st', i, s, b) && MapLogged(st, st', i, s, lg, lg', {bb})
  {
    hide Inv, Word, SameBytes, Grew, KeepsData;
    GainKeepsBytes(l, st, st', Slot(i, s), b);
  }

  /** Finding the indirect block first and an entry of it second. */
  lemma MappedTwice(l: Layout, st: State, st1: State, st2: State, i: nat, j: nat, ind: nat, b: nat)
    requires j < NINDIRECT && IsSlot(st, Slot(i, NDIRECT + 1 + j))
    requires Mapped(l, st, st1, i, NDIRECT, ind) && Mapped(l, st1, st2, i, NDIRECT + 1 + j, b) && st2.inodes == st1.inodes
    ensures Mapped(l, st, st2, i, NDIRECT + 1 + j, b)
  {
    hide Inv, Word, FileByte;
    forall k, off | 0 <= k < |st.inodes| && |st.inodes[k].addrs| == NDIRECT + 1 && 0 <= off < MAXBYTES
      ensures FileByte(st2.blocks, st2.inodes[k], off) == FileByte(st.blocks, st.inodes[k], off)
    {
      assert FileByte(st1.blocks, st1.inodes[k], off) == FileByte(st.blocks, st.inodes[k], off);
    }
  }

  lemma MappedInv(l: Layout, st: State, st': State, i: nat, s: nat, b: nat)
    requires Mapped(l, st, st', i, s, b)
    ensures Inv(l, st') && Addr(st'.blocks, st'.inodes[i], s) == b != 0 && SameSlots(st, st')
    ensures Holds(st, Slot(i, s)) != 0 ==> st' == st
    ensures forall t :: 0 <= t < SLOTS && Addr(st.blocks, st.inodes[i], t) != 0 ==>
              Addr(st'.blocks, st'.inodes[i], t) == Addr(st.blocks, st.inodes[i], t)
  {
    hide Inv, Word, SameBytes;
    forall t | 0 <= t < SLOTS && Addr(st.blocks, st.inodes[i], t) != 0
      ensures Addr(st'.blocks, st'.inodes[i], t) == Addr(st.blocks, st.inodes[i], t)
    {
      assert IsSlot(st, Slot(i, t)) && Holds(st, Slot(i, t)) != 0;
    }
  }

  lemma LoggedDirect(l: Layout, st: State, st': State, i: nat, bn: nat, b: nat, lg: set<nat>, lg': set<nat>, bm: set<nat>)
    requires bn < NDIRECT && Mapped(l, st, st', i, bn, b) && MapLogged(st, st', i, bn, lg, lg', bm)
    requires st'.inodes[i].addrs[NDIRECT] == st.inodes[i].addrs[NDIRECT]
    ensures BmapLogged(st, st', i, bn, lg, lg', bm)
  {
  }

  lemma LoggedTwice(l: Layout, st: State, st1: State, st2: State, i: nat, j: nat, ind: nat, b: nat,
                    lg: set<nat>, lg1: set<nat>, lg2: set<nat>, bm1: set<nat>, bm2: set<nat>)
    requires j < NINDIRECT && IsSlot(st, Slot(i, NDIRECT + 1 + j))
    requires Mapped(l, st, st1, i, NDIRECT, ind) && Mapped(l, st1, st2, i, NDIRECT + 1 + j, b) && st2.inodes == st1.inodes
    requires MapLogged(st, st1, i, NDIRECT, lg, lg1, bm1) && MapLogged(st1, st2, i, NDIRECT + 1 + j, lg1, lg2, bm2)
    ensures BmapLogged(st, st2, i, NDIRECT + 1 + j, lg, lg2, bm1 + bm2)
  {
    hide Inv, Word, SameBytes;
    UnionCard(bm1, bm2);
    assert IsSlot(st, Slot(i, NDIRECT));
    if st.inodes[i].addrs[NDIRECT] != 0 {
      assert st1 == st;
    }
  }

  lemma UnionCard(x: set<nat>, y: set<nat>)
    ensures |x + y| <= |x| + |y|
  {
    assert x + y == x + (y - x);
    assert |y| == |y - x| + |y * x| by { assert y == (y - x) + (y * x); }
  }

  /** Bytes off.. of inode i are now `src`; every other byte of every inode is as before. */
  ghost predicate Written(st: State, st': State, i: nat, off: nat, src: seq<byte>) {
    && SameSlots(st, st')
    && forall k, o :: 0 <= k < |st.inodes| && |st.inodes[k].addrs| == NDIRECT + 1 && 0 <= o < MAXBYTES ==>
         FileByte(st'.blocks, st'.inodes[k], o)
         == if k == i && off <= o < off + |src| then src[o - off] else FileByte(st.blocks, st.inodes[k], o)
  }

  lemma WrittenAfterSame(st: State, st1: State, st2: State, i: nat, off: nat, src: seq<byte>)
    requires SameBytes(st, st1) && Written(st1, st2, i, off, src)
    ensures Written(st, st2, i, off, src)
  {
    hide FileByte;
    forall k, o | 0 <= k < |st.inodes| && |st.inodes[k].addrs| == NDIRECT + 1 && 0 <= o < MAXBYTES
      ensures FileByte(st2.blocks, st2.inodes[k], o)
              == if k == i && off <= o < off + |src| then src[o - off] else FileByte(st.blocks, st.inodes[k], o)
    {
      assert FileByte(st1.blocks, st1.inodes[k], o) == FileByte(st.blocks, st.inodes[k], o);
    }
  }

  ghost predicate ChunkLogged(st: State, st': State, i: nat, bn: nat, lg: set<nat>, lg': set<nat>, blk: nat, bm: set<nat>) {
    && bn < MAXFILE && IsSlot(st, Slot(i, SlotOf(bn))) && IsSlot(st', Slot(i, SlotOf(bn)))
    && Holds(st', Slot(i, SlotOf(bn))) != 0
    && |bm| <= (if Holds(st, Slot(i, SlotOf(bn))) == 0 then 1 else 0)
               + (if st.inodes[i].addrs[NDIRECT] != st'.inodes[i].addrs[NDIRECT] then 1 else 0)
    && lg' <= lg + bm + {blk} + Indirect(st', i)
    && (st.inodes[i].addrs[NDIRECT] != 0 ==> st'.inodes[i].addrs[NDIRECT] == st.inodes[i].addrs[NDIRECT])
    && (Holds(st, Slot(i, SlotOf(bn))) != 0 ==> st'.inodes == st.inodes)
  }

  /** Every block below the end of the file is allocated. */
  ghost predicate NoHoles(st: State, i: nat) {
    && i < |st.inodes| && |st.inodes[i].addrs| == NDIRECT + 1
    && forall bn :: 0 <= bn < MAXFILE && bn * BSIZE < st.inodes[i].size ==> Addr(st.blocks, st.inodes[i], SlotOf(bn)) != 0
  }

  function CeilDiv(x: nat): nat {
    (x + BSIZE - 1) / BSIZE
  }

  /** How many blocks the bytes [off, off + n) touch. */
  function Touched(off: nat, n: nat): nat {
    if n == 0 then 0 else CeilDiv(off + n) - off / BSIZE
  }

  /** Two adjacent writes make one. */
  lemma WrittenConcat(st: State, st1: State, st2: State, i: nat, off: nat, x: seq<byte>, y: seq<byte>)
    requires Written(st, st1, i, off, x) && Written(st1, st2, i, off + |x|, y)
    ensures Written(st, st2, i, off, x + y)
  {
    hide FileByte;
    forall k, o | 0 <= k < |st.inodes| && |st.inodes[k].addrs| == NDIRECT + 1 && 0 <= o < MAXBYTES
      ensures FileByte(st2.blocks, st2.inodes[k], o)
              == if k == i && off <= o < off + |x + y| then (x + y)[o - off] else FileByte(st.blocks, st.inodes[k], o)
    {
      assert FileByte(st1.blocks, st1.inodes[k], o)
             == if k == i && off <= o < off + |x| then x[o - off] else FileByte(st.blocks, st.inodes[k], o);
    }
  }

  lemma WrittenNothing(st: State, i: nat, off: nat)
    ensures Written(st, st, i, off, []) && Grew(st, st)
  {
    hide FileByte;
  }

  lemma GrewTrans(st: State, st1: State, st2: State)
    requires Grew(st, st1) && Grew(st1, st2)
    ensures Grew(st, st2)
  {
    hide Word;
  }

  /** What has been logged after some turns of writei's loop, from offset off to offset o. */
  ghost predicate LoopLogged(st: State, st': State, i: nat, off: nat, o: nat, lg: set<nat>, lg': set<nat>, blks: set<nat>, bms: set<nat>) {
    && off <= o && IsSlot(st, Slot(i, NDIRECT)) && IsSlot(st', Slot(i, NDIRECT))
    && lg' <= lg + blks + bms + Indirect(st', i)
    && |blks| <= Touched(off, o - off)
    && |bms| <= Touched(off, o - off)
                - (if o > off && FirstExists(st, i, off) then 1 else 0)
                + (if st.inodes[i].addrs[NDIRECT] != st'.inodes[i].addrs[NDIRECT] then 1 else 0)
    && (st.inodes[i].addrs[NDIRECT] != 0 ==> st'.inodes[i].addrs[NDIRECT] == st.inodes[i].addrs[NDIRECT])
  }

  /** A write that starts inside a block finds that block allocated, if the file has no holes. */
  ghost predicate FirstExists(st: State, i: nat, off: nat) {
    i < |st.inodes| && off % BSIZE != 0 && off <= st.inodes[i].size && NoHoles(st, i)
  }

  /** The blocks written so far are allocated; below the old size nothing had to be. */
  ghost predicate LoopFilled(st: State, st': State, i: nat, off: nat, o: nat) {
    && i < |st'.inodes| && |st'.inodes[i].addrs| == NDIRECT + 1
    && (NoHoles(st, i) && o <= st.inodes[i].size ==> st'.inodes == st.inodes)
    && (o > off ==> forall bn :: off / BSIZE <= bn < MAXFILE && bn * BSIZE < o ==> Addr(st'.blocks, st'.inodes[i], SlotOf(bn)) != 0)
  }

  lemma TouchedStep(off: nat, o: nat, m: nat)
    requires off <= o && 0 < m <= BSIZE - o % BSIZE && (o == off || o % BSIZE == 0)
    ensures Touched(off, o + m - off) == Touched(off, o - off) + 1
    ensures forall bn :: off / BSIZE <= bn && bn * BSIZE < o + m ==> bn == o / BSIZE || bn * BSIZE < o
  {
    assert o == o / BSIZE * BSIZE + o % BSIZE;
    assert CeilDiv(o + m) == o / BSIZE + 1;
    assert o > off ==> CeilDiv(o) == o / BSIZE;
  }

  lemma LoopLoggedStep(st: State, st1: State, st2: State, i: nat, off: nat, o: nat, m: nat,
                       lg: set<nat>, lg1: set<nat>, lg2: set<nat>, blks: set<nat>, bms: set<nat>, blk: nat, bm: set<nat>)
    requires LoopLogged(st, st1, i, off, o, lg, lg1, blks, bms) && ChunkLogged(st1, st2, i, o / BSIZE, lg1, lg2, blk, bm)
    requires Grew(st, st1)
    requires 0 < m <= BSIZE - o % BSIZE && (o == off || o % BSIZE == 0) && o + m <= MAXBYTES
    ensures LoopLogged(st, st2, i, off, o + m, lg, lg2, blks + {blk}, bms + bm)
  {
    hide Word, Touched, SlotOf;
    TouchedStep(off, o, m);
    UnionCard(blks, {blk});
    UnionCard(bms, bm);
    if o == off && FirstExists(st, i, off) {
      var bn := off / BSIZE;
      assert bn * BSIZE < st.inodes[i].size;
      assert IsSlot(st, Slot(i, SlotOf(bn))) && Holds(st, Slot(i, SlotOf(bn))) != 0;
    }
  }

  lemma LoopFilledStep(st: State, st1: State, st2: State, i: nat, off: nat, o: nat, m: nat,
                       lg1: set<nat>, lg2: set<nat>, blk: nat, bm: set<nat>)
    requires off <= o && LoopFilled(st, st1, i, off, o) && ChunkLogged(st1, st2, i, o / BSIZE, lg1, lg2, blk, bm)
    requires Grew(st, st1) && Grew(st1, st2)
    requires 0 < m <= BSIZE - o % BSIZE && (o == off || o % BSIZE == 0) && o + m <= MAXBYTES
    ensures LoopFilled(st, st2, i, off, o + m)
  {
    hide Word;
    TouchedStep(off, o, m);
    var bn := o / BSIZE;
    var y := Slot(i, SlotOf(bn));
    if NoHoles(st, i) && o + m <= st.inodes[i].size {
      assert bn * BSIZE < st.inodes[i].size;
      assert IsSlot(st, y) && Holds(st, y) != 0;
    }
    forall c | off / BSIZE <= c < MAXFILE && c * BSIZE < o + m ensures Addr(st2.blocks, st2.inodes[i], SlotOf(c)) != 0 {
      if c != bn {
        assert IsSlot(st1, Slot(i, SlotOf(c))) && Holds(st1, Slot(i, SlotOf(c))) != 0;
      }
    }
  }

  lemma LoopStart(l: Layout, st: State, i: nat, off: nat, lg: set<nat>)
    requires Shape(l, st) && i < |st.inodes|
    ensures LoopLogged(st, st, i, off, off, lg, lg, {}, {}) && LoopFilled(st, st, i, off, off)
  {
  }

  /** min(n, BSIZE - off % BSIZE): the bytes of the next turn of readi's and writei's loops. */
  function Chunk(off: nat, n: nat): (m: nat)
    requires n > 0
    ensures 0 < m <= n && m <= BSIZE - off % BSIZE && (m == n || (off + m) % BSIZE == 0)
  {
    assert off == off / BSIZE * BSIZE + off % BSIZE;
    if n < BSIZE - off % BSIZE then n else BSIZE - off % BSIZE
  }

  lemma SliceConcat(s: seq<byte>, a: nat, m: nat)
    requires a + m <= |s|
    ensures s[..a] + s[a..a + m] == s[..a + m]
  {
  }

  /** Everything known after the bytes `done` have been written at off. */
  ghost predicate Progress(st: State, st': State, i: nat, off: nat, done: seq<byte>,
                           lg: set<nat>, lg': set<nat>, blks: set<nat>, bms: set<nat>) {
    && Written(st, st', i, off, done) && Grew(st, st')
    && i < |st.inodes| && |st'.inodes| == |st.inodes|
    && st'.inodes == st.inodes[i := st.inodes[i].(addrs := st'.inodes[i].addrs)]
    && LoopLogged(st, st', i, off, off + |done|, lg, lg', blks, bms)
    && LoopFilled(st, st', i, off, off + |done|)
    && Fills(st, st', i, Slots(off, off + |done|))
  }

  lemma ProgressStart(l: Layout, st: State, i: nat, off: nat, lg: set<nat>)
    requires Shape(l, st) && i < |st.inodes|
    ensures Progress(st, st, i, off, [], lg, lg, {}, {})
  {
    WrittenNothing(st, i, off);
    LoopStart(l, st, i, off, lg);
    SlotsNone(off);
    FillsNone(st, i);
  }

  lemma ProgressStep(st: State, st1: State, st2: State, i: nat, off: nat, done: seq<byte>, more: seq<byte>,
                     lg: set<nat>, lg1: set<nat>, lg2: set<nat>, blks: set<nat>, bms: set<nat>, blk: nat, bm: set<nat>)
    requires Progress(st, st1, i, off, done, lg, lg1, blks, bms)
    requires var o := off + |done|;
             && 0 < |more| <= BSIZE - o % BSIZE && (o == off || o % BSIZE == 0) && o + |more| <= MAXBYTES
             && Written(st1, st2, i, o, more) && Grew(st1, st2) && i < |st2.inodes|
             && st2.inodes == st1.inodes[i := st1.inodes[i].(addrs := st2.inodes[i].addrs)]
             && ChunkLogged(st1, st2, i, o / BSIZE, lg1, lg2, blk, bm)
             && o / BSIZE < MAXFILE && Fills(st1, st2, i, Via(SlotOf(o / BSIZE)))
    ensures Progress(st, st2, i, off, done + more, lg, lg2, blks + {blk}, bms + bm)
  {
    hide Written, Grew, ChunkLogged, LoopLogged, LoopFilled, Fills, Slots, Via;
    var o := off + |done|;
    WrittenConcat(st, st1, st2, i, off, done, more);
    GrewTrans(st, st1, st2);
    LoopLoggedStep(st, st1, st2, i, off, o, |more|, lg, lg1, lg2, blks, bms, blk, bm);
    LoopFilledStep(st, st1, st2, i, off, o, |more|, lg1, lg2, blk, bm);
    SlotsStep(off, o, |more|);
    FillsTwice(st, st1, st2, i, Slots(off, o), Via(SlotOf(o / BSIZE)));
  }

  lemma HolesStart(st: State, i: nat, off: nat)
    requires i < |st.inodes| && |st.inodes[i].addrs| == NDIRECT + 1
    ensures |Holes(st, i, Slots(off, off))| == 0
  {
    SlotsNone(off);
  }

  /** The next chunk fills what is empty on the way to its block. */
  lemma ProgressHoles(st: State, st1: State, i: nat, off: nat, done: seq<byte>, m: nat,
                      lg: set<nat>, lg1: set<nat>, blks: set<nat>, bms: set<nat>)
    requires Progress(st, st1, i, off, done, lg, lg1, blks, bms) && i < |st1.inodes|
    requires |st.inodes[i].addrs| == NDIRECT + 1 == |st1.inodes[i].addrs|
    requires var o := off + |done|; 0 < m <= BSIZE - o % BSIZE && (o == off || o % BSIZE == 0) && o + m <= MAXBYTES
    ensures var o := off + |done|;
            && o / BSIZE < MAXFILE
            && |Holes(st, i, Slots(off, o + m))| == |Holes(st, i, Slots(off, o))| + |Holes(st1, i, Via(SlotOf(o / BSIZE)))|
  {
    hide Written, Grew, LoopLogged, LoopFilled, Fills, Slots, Via, Holes;
    NextHoles(st, st1, i, off, off + |done|, m);
  }

  lemma NextHoles(st: State, st1: State, i: nat, off: nat, o: nat, m: nat)
    requires i < |st.inodes| && |st.inodes[i].addrs| == NDIRECT + 1 && Fills(st, st1, i, Slots(off, o))
    requires off <= o && 0 < m <= BSIZE - o % BSIZE && (o == off || o % BSIZE == 0) && o + m <= MAXBYTES
    ensures o / BSIZE < MAXFILE && Slots(off, o + m) == Slots(off, o) + Via(SlotOf(o / BSIZE))
    ensures |Holes(st, i, Slots(off, o + m))| == |Holes(st, i, Slots(off, o))| + |Holes(st1, i, Via(SlotOf(o / BSIZE)))|
  {
    hide Fills, Slots, Via, Holes;
    SlotsStep(off, o, m);
    HolesTwice(st, st1, i, Slots(off, o), Via(SlotOf(o / BSIZE)));
  }

  /** Fewer bytes touch fewer slots. */
  lemma SlotsFewer(off: nat, o: nat, o': nat)
    requires o <= o'
    ensures Slots(off, o) <= Slots(off, o')
  {
  }

  lemma MappedFacts(l: Layout, st: State, st': State, i: nat, s: nat, b: nat)
    requires Mapped(l, st, st', i, s, b)
    ensures SameBytes(st, st') && Grew(st, st') && i < |st'.inodes| && |st'.inodes| == |st.inodes| && Fills(st, st', i, Via(s))
    ensures IsSlot(st', Slot(i, s)) && 0 < b < l.size && Addr(st'.blocks, st'.inodes[i], s) == b
    ensures st'.inodes == st.inodes[i := st.inodes[i].(addrs := st'.inodes[i].addrs)]
  {
  }

  /** bmap followed by the log_write of the block. */
  lemma ChunkLoggedAfter(l: Layout, st: State, st1: State, st2: State, i: nat, bn: nat, lg: set<nat>, lg1: set<nat>, b: nat, bm: set<nat>)
    requires bn < MAXFILE && Mapped(l, st, st1, i, SlotOf(bn), b) && BmapLogged(st, st1, i, SlotOf(bn), lg, lg1, bm)
    requires SameHolds(st1, st2) && st2.inodes == st1.inodes
    ensures ChunkLogged(st, st2, i, bn, lg, lg1 + {b}, b, bm) && Grew(st, st2)
  {
    hide Inv, Word, SameBytes;
  }

  lemma ChunkPosition(off: nat, k: nat)
    requires k < BSIZE - off % BSIZE
    ensures (off + k) / BSIZE == off / BSIZE && (off + k) % BSIZE == off % BSIZE + k
  {
    assert off == off / BSIZE * BSIZE + off % BSIZE;
  }

  /** Writing one data block of an inode changes the bytes of that block of that inode only. */
  lemma ChunkWritten(l: Layout, st: State, i: nat, off: nat, src: seq<byte>, d: Block)
    requires Inv(l, st) && i < |st.inodes| && 0 < |src| <= BSIZE - off % BSIZE && off + |src| <= MAXBYTES
    requires var a := Addr(st.blocks, st.inodes[i], SlotOf(off / BSIZE));
             0 < a < l.size && d == st.blocks[a][..off % BSIZE] + src + st.blocks[a][off % BSIZE + |src|..]
    ensures var st' := st.(blocks := st.blocks[Addr(st.blocks, st.inodes[i], SlotOf(off / BSIZE)) := d]);
            Inv(l, st') && Written(st, st', i, off, src) && SameHolds(st, st')
  {
    var y := Slot(i, SlotOf(off / BSIZE));
    var a: nat := Holds(st, y);
    assert IsSlot(st, y) && a in st.owner && st.owner[a] == y;
    var st' := st.(blocks := st.blocks[a := d]);
    WriteKeepsInv(l, st, st'.blocks);
    hide InUse, Word;
    forall x | IsSlot(st, x) ensures IsSlot(st', x) && Holds(st', x) == Holds(st, x) {
      HoldsKept(l, st, st'.blocks, x);
    }
    forall k, o | 0 <= k < |st.inodes| && 0 <= o < MAXBYTES
      ensures FileByte(st'.blocks, st'.inodes[k], o)
              == if k == i && off <= o < off + |src| then src[o - off] else FileByte(st.blocks, st.inodes[k], o)
    {
      ChunkByte(st, st', i, off, src, a, d, k, o);
    }
  }

  lemma ChunkByte(st: State, st': State, i: nat, off: nat, src: seq<byte>, a: nat, d: Block, k: nat, o: nat)
    requires i < |st.inodes| && 0 < |src| <= BSIZE - off % BSIZE && off + |src| <= MAXBYTES && k < |st.inodes| && o < MAXBYTES
    requires SameHolds(st, st') && HoldersOwn(st) && IsSlot(st, Slot(k, SlotOf(o / BSIZE)))
    requires IsSlot(st, Slot(i, SlotOf(off / BSIZE)))
    requires Holds(st, Slot(i, SlotOf(off / BSIZE))) == a && 0 < a < |st.blocks|
    requires st'.blocks == st.blocks[a := d] && d == st.blocks[a][..off % BSIZE] + src + st.blocks[a][off % BSIZE + |src|..]
    ensures FileByte(st'.blocks, st'.inodes[k], o)
            == if k == i && off <= o < off + |src| then src[o - off] else FileByte(st.blocks, st.inodes[k], o)
  {
    hide Word;
    var x, y := Slot(k, SlotOf(o / BSIZE)), Slot(i, SlotOf(off / BSIZE));
    assert Holds(st', x) == Holds(st, x);
    if off <= o < off + |src| {
      ChunkPosition(off, o - off);
    }
    if Holds(st, x) == a {
      assert x == y;
      assert o / BSIZE == off / BSIZE;
    }
  }

  /** The bytes of a file. */
  ghost function Contents(st: State, i: nat): (c: seq<byte>)
    requires i < |st.inodes| && |st.inodes[i].addrs| == NDIRECT + 1 && st.inodes[i].size <= MAXBYTES
    ensures |c| == st.inodes[i].size
    ensures forall o :: 0 <= o < |c| ==> c[o] == FileByte(st.blocks, st.inodes[i], o)
  {
    seq(st.inodes[i].size, o requires 0 <= o < st.inodes[i].size => FileByte(st.blocks, st.inodes[i], o))
  }

  /** A byte sequence with `src` laid over it from off on, extended if need be. */
  function Overlay(c: seq<byte>, off: nat, src: seq<byte>): seq<byte>
    requires off <= |c|
  {
    c[..off] + src + (if off + |src| < |c| then c[off + |src|..] else [])
  }

  lemma WrittenContents(st: State, st': State, i: nat, off: nat, src: seq<byte>)
    requires Written(st, st', i, off, src) && i < |st.inodes| && |st.inodes[i].addrs| == NDIRECT + 1
    requires off <= st.inodes[i].size <= MAXBYTES && off + |src| <= MAXBYTES
    requires st'.inodes[i].size == if off + |src| > st.inodes[i].size then off + |src| else st.inodes[i].size
    ensures Contents(st', i) == Overlay(Contents(st, i), off, src)
  {
    hide FileByte;
    var c, c', v := Contents(st, i), Contents(st', i), Overlay(Contents(st, i), off, src);
    assert |c'| == |v|;
    forall o | 0 <= o < |c'| ensures c'[o] == v[o] {
      assert c'[o] == FileByte(st'.blocks, st'.inodes[i], o);
    }
  }

  /** A read or write of n bytes at off that the kernel refuses; the sum wraps at 32 bits. */
  predicate BadRange(off: uint32, n: uint32, size: nat) {
    off > size || (off + n) % 0x1_0000_0000 < off
  }

  /** Where readi stops. */
  function Clipped(off: nat, n: nat, size: nat): nat {
    if off + n > size then size else off + n
  }

  datatype Outcome = Ret(n: int) | Panic

  /** Changing the recorded size moves no block. */
  lemma ResizeKeeps(l: Layout, st: State, i: nat, size: uint32)
    requires Inv(l, st) && i < |st.inodes|
    ensures var st' := st.(inodes := st.inodes[i := st.inodes[i].(size := size)]);
            Inv(l, st') && SameHolds(st, st') && SameBytes(st, st')
  {
    var st' := st.(inodes := st.inodes[i := st.inodes[i].(size := size)]);
    hide InUse, Word;
    assert SameHolds(st, st');
    OwnershipKept(l, st, st');
    BitmapKept(l, st, st');
  }

  lemma DataAbove(l: Layout, st: State, blocks: seq<Block>)
    requires Inv(l, st) && |blocks| == |st.blocks| && forall b :: l.bmap <= b < |blocks| ==> blocks[b] == st.blocks[b]
    ensures SameIndirect(st, blocks) && l.bmap < l.data <= |blocks|
    ensures forall x :: IsSlot(st, x) && Holds(st, x) != 0 ==> l.data <= Holds(st, x) < |blocks|
  {
  }

  /** Blocks below the bitmap hold no part of a file. */
  lemma BelowBitmapKeeps(l: Layout, st: State, blocks: seq<Block>)
    requires Inv(l, st) && |blocks| == |st.blocks| && forall b :: l.bmap <= b < |blocks| ==> blocks[b] == st.blocks[b]
    ensures var st' := st.(blocks := blocks);
            Inv(l, st') && SameHolds(st, st') && SameBytes(st, st')
  {
    hide Word, Inv;
    var st' := st.(blocks := blocks);
    DataAbove(l, st, blocks);
    WriteKeepsInv(l, st, blocks);
    forall x | IsSlot(st, x) ensures Holds(st', x) == Holds(st, x) {
      HoldsKept(l, st, blocks, x);
    }
    forall k, off | 0 <= k < |st.inodes| && |st.inodes[k].addrs| == NDIRECT + 1 && 0 <= off < MAXBYTES
      ensures FileByte(st'.blocks, st'.inodes[k], off) == FileByte(st.blocks, st.inodes[k], off)
    {
      var x := Slot(k, SlotOf(off / BSIZE));
      assert IsSlot(st, x) && Holds(st', x) == Holds(st, x);
    }
  }

  lemma SameBytesContents(st: State, st': State, i: nat)
    requires SameBytes(st, st') && i < |st.inodes| && |st.inodes[i].addrs| == NDIRECT + 1
    requires st'.inodes[i].size == st.inodes[i].size <= MAXBYTES
    ensures Contents(st', i) == Contents(st, i)
  {
    hide FileByte;
  }

  lemma NoHolesKept(st: State, st': State, i: nat)
    requires SameHolds(st, st') && NoHoles(st, i) && st'.inodes[i].size == st.inodes[i].size
    ensures NoHoles(st', i)
  {
    forall bn | 0 <= bn < MAXFILE && bn * BSIZE < st.inodes[i].size ensures Addr(st'.blocks, st'.inodes[i], SlotOf(bn)) != 0 {
      var x := Slot(i, SlotOf(bn));
      assert IsSlot(st, x) && Holds(st, x) != 0;
    }
  }

  /** writei's last step: a write past the end extends the file. */
  function Extended(st: State, i: nat, end: uint32): State
    requires i < |st.inodes|
  {
    if end > st.inodes[i].size then st.(inodes := st.inodes[i := st.inodes[i].(size := end)]) else st
  }

  /** All that one writei logs: the blocks written, a bitmap block for each allocation, the indirect block and
      the inode's block. */
  ghost predicate WriteLogged(st: State, st': State, i: nat, off: nat, n: nat, lg: set<nat>, lg': set<nat>,
                              blks: set<nat>, bms: set<nat>, ib: nat) {
    && IsSlot(st, Slot(i, NDIRECT)) && IsSlot(st', Slot(i, NDIRECT))
    && lg' <= lg + blks + bms + Indirect(st', i) + {ib}
    && |blks| <= Touched(off, n)
    && |bms| <= Touched(off, n) - (if n > 0 && FirstExists(st, i, off) then 1 else 0) + 1
  }

  lemma ExtendKeeps(l: Layout, st: State, i: nat, end: uint32)
    requires Inv(l, st) && i < |st.inodes|
    ensures Inv(l, Extended(st, i, end)) && SameHolds(st, Extended(st, i, end)) && SameBytes(st, Extended(st, i, end))
  {
    hide Inv, SameHolds, SameBytes;
    ResizeKeeps(l, st, i, end);
    ResizeKeeps(l, st, i, st.inodes[i].size);
    assert st.(inodes := st.inodes[i := st.inodes[i].(size := st.inodes[i].size)]) == st;
  }

  lemma WrittenBeforeSame(st: State, st1: State, st2: State, i: nat, off: nat, src: seq<byte>)
    requires Written(st, st1, i, off, src) && SameBytes(st1, st2)
    ensures Written(st, st2, i, off, src)
  {
    hide FileByte;
    forall k, o | 0 <= k < |st.inodes| && |st.inodes[k].addrs| == NDIRECT + 1 && 0 <= o < MAXBYTES
      ensures FileByte(st2.blocks, st2.inodes[k], o)
              == if k == i && off <= o < off + |src| then src[o - off] else FileByte(st.blocks, st.inodes[k], o)
    {
      assert FileByte(st2.blocks, st2.inodes[k], o) == FileByte(st1.blocks, st1.inodes[k], o);
    }
  }

  /** The contents after the loop and the extension. */
  lemma WriteContents(l: Layout, st: State, st1: State, i: nat, off: nat, src: seq<byte>,
                      lg: set<nat>, lg1: set<nat>, blks: set<nat>, bms: set<nat>)
    requires Inv(l, st) && Inv(l, st1) && Progress(st, st1, i, off, src, lg, lg1, blks, bms)
    requires off <= st.inodes[i].size <= MAXBYTES && off + |src| <= MAXBYTES
    ensures var st2 := Extended(st1, i, off + |src|);
            && Inv(l, st2) && Written(st, st2, i, off, src)
            && Contents(st2, i) == Overlay(Contents(st, i), off, src)
  {
    hide Inv, Written, SameBytes, SameHolds, Contents, Grew, LoopLogged, LoopFilled;
    InvShape(l, st);
    ExtendKeeps(l, st1, i, off + |src|);
    var st2 := Extended(st1, i, off + |src|);
    WrittenBeforeSame(st, st1, st2, i, off, src);
    WrittenContents(st, st2, i, off, src);
  }

  lemma WriteNoHoles(l: Layout, st: State, st1: State, i: nat, off: nat, src: seq<byte>,
                     lg: set<nat>, lg1: set<nat>, blks: set<nat>, bms: set<nat>)
    requires Inv(l, st) && Progress(st, st1, i, off, src, lg, lg1, blks, bms)
    requires off <= st.inodes[i].size <= MAXBYTES && off + |src| <= MAXBYTES && NoHoles(st, i)
    ensures NoHoles(Extended(st1, i, off + |src|), i)
    ensures off + |src| <= st.inodes[i].size ==> st1.inodes == st.inodes
  {
    hide Inv, Written, LoopLogged, Word;
    var st2 := Extended(st1, i, off + |src|);
    forall bn | 0 <= bn < MAXFILE && bn * BSIZE < st2.inodes[i].size
      ensures Addr(st2.blocks, st2.inodes[i], SlotOf(bn)) != 0
    {
      if bn * BSIZE < st.inodes[i].size {
        assert IsSlot(st, Slot(i, SlotOf(bn))) && Holds(st, Slot(i, SlotOf(bn))) != 0;
      } else {
        assert off / BSIZE <= bn;
      }
    }
  }

  lemma ProgressInodes(st: State, st1: State, i: nat, off: nat, src: seq<byte>,
                       lg: set<nat>, lg1: set<nat>, blks: set<nat>, bms: set<nat>)
    requires Progress(st, st1, i, off, src, lg, lg1, blks, bms)
    ensures |st1.inodes| == |st.inodes| && i < |st.inodes| && |st1.inodes[i].addrs| == |st.inodes[i].addrs|
    ensures st1.inodes == st.inodes[i := st.inodes[i].(addrs := st1.inodes[i].addrs)]
    ensures Fills(st, st1, i, Slots(off, off + |src|))
  {
  }

  lemma WriteLoggedAfter(st: State, st1: State, i: nat, off: nat, src: seq<byte>,
                         lg: set<nat>, lg1: set<nat>, blks: set<nat>, bms: set<nat>, ib: nat)
    requires Progress(st, st1, i, off, src, lg, lg1, blks, bms) && off + |src| <= MAXBYTES
    ensures WriteLogged(st, Extended(st1, i, off + |src|), i, off, |src|, lg, lg1, blks, bms, ib)
    ensures WriteLogged(st, Extended(st1, i, off + |src|), i, off, |src|, lg, lg1 + {ib}, blks, bms, ib)
  {
    hide Written, Grew, LoopFilled, NoHoles, Touched;
  }

  lemma WriteLoggedSame(st: State, st1: State, st2: State, i: nat, off: nat, n: nat, lg: set<nat>, lg': set<nat>,
                        blks: set<nat>, bms: set<nat>, ib: nat)
    requires WriteLogged(st, st1, i, off, n, lg, lg', blks, bms, ib) && st2.inodes == st1.inodes
    ensures WriteLogged(st, st2, i, off, n, lg, lg', blks, bms, ib)
  {
  }

  /** What a slot holds is a data block. */
  lemma HeldIsData(l: Layout, st: State, x: Slot)
    requires Inv(l, st) && IsSlot(st, x) && Holds(st, x) != 0
    ensures l.data <= Holds(st, x) < l.size && l.bmap < l.data
  {
  }

  lemma SameBytesRefl(st: State)
    ensures SameBytes(st, st)
  {
    hide FileByte;
  }

  lemma SameBytesTrans(st: State, st1: State, st2: State)
    requires SameBytes(st, st1) && SameBytes(st1, st2)
    ensures SameBytes(st, st2)
  {
    hide FileByte;
    forall k, o | 0 <= k < |st.inodes| && |st.inodes[k].addrs| == NDIRECT + 1 && 0 <= o < MAXBYTES
      ensures FileByte(st2.blocks, st2.inodes[k], o) == FileByte(st.blocks, st.inodes[k], o)
    {
      assert FileByte(st1.blocks, st1.inodes[k], o) == FileByte(st.blocks, st.inodes[k], o);
    }
  }

  lemma BlockBelowEnd(st: State, i: nat, o: nat)
    requires i < |st.inodes| && o < st.inodes[i].size <= MAXBYTES
    ensures o / BSIZE < MAXFILE
    ensures NoHoles(st, i) ==> Addr(st.blocks, st.inodes[i], SlotOf(o / BSIZE)) != 0
  {
    assert o / BSIZE * BSIZE <= o;
  }

  lemma LoggedSame(st: State, st': State, i: nat, s: nat, lg: set<nat>, lg': set<nat>, bm: set<nat>)
    requires BmapLogged(st, st', i, s, lg, lg', bm)
    ensures Addr(st.blocks, st.inodes[i], s) != 0 ==> lg' == lg
  {
  }

  lemma MappedSameState(l: Layout, st: State, st': State, i: nat, s: nat, b: nat)
    requires Mapped(l, st, st', i, s, b)
    ensures IsSlot(st, Slot(i, s)) && (Addr(st.blocks, st.inodes[i], s) != 0 ==> st' == st)
  {
  }

  /** dst is what inode i holds from offset o on. */
  ghost predicate CopyOf(dst: seq<byte>, st: State, i: nat, o: nat) {
    && i < |st.inodes| && |st.inodes[i].addrs| == NDIRECT + 1 && o + |dst| <= MAXBYTES
    && forall k :: 0 <= k < |dst| ==> dst[k] == FileByte(st.blocks, st.inodes[i], o + k)
  }

  lemma CopyNone(st: State, i: nat, o: nat)
    requires i < |st.inodes| && |st.inodes[i].addrs| == NDIRECT + 1 && o <= MAXBYTES
    ensures CopyOf([], st, i, o)
  {
  }

  lemma CopyMore(st: State, st1: State, i: nat, o: nat, dst: seq<byte>, chunk: seq<byte>)
    requires CopyOf(dst, st, i, o) && SameBytes(st, st1) && CopyOf(chunk, st1, i, o + |dst|)
    ensures CopyOf(dst + chunk, st, i, o)
  {
    hide FileByte;
    forall k | 0 <= k < |dst + chunk| ensures (dst + chunk)[k] == FileByte(st.blocks, st.inodes[i], o + k) {
      if k >= |dst| {
        assert chunk[k - |dst|] == FileByte(st1.blocks, st1.inodes[i], o + |dst| + (k - |dst|));
      }
    }
  }

  lemma CopyAll(st: State, i: nat, o: nat, dst: seq<byte>)
    requires CopyOf(dst, st, i, o) && o + |dst| <= st.inodes[i].size <= MAXBYTES
    ensures dst == Contents(st, i)[o..o + |dst|]
  {
    hide FileByte;
    var c := Contents(st, i)[o..o + |dst|];
    forall k | 0 <= k < |dst| ensures dst[k] == c[k] {
      assert c[k] == FileByte(st.blocks, st.inodes[i], o + k);
    }
  }

  /** The bytes readi copies out of one block. */
  lemma ChunkBytes(l: Layout, st: State, st': State, i: nat, o: nat, m: nat, b: nat, chunk: seq<byte>)
    requires Shape(l, st) && SameBytes(st, st') && i < |st.inodes| && o + m <= MAXBYTES && m <= BSIZE - o % BSIZE && m > 0
    requires IsSlot(st', Slot(i, SlotOf(o / BSIZE))) && Addr(st'.blocks, st'.inodes[i], SlotOf(o / BSIZE)) == b
    requires 0 < b < |st'.blocks|
    requires chunk == st'.blocks[b][o % BSIZE..o % BSIZE + m]
    ensures forall k :: 0 <= k < m ==> chunk[k] == FileByte(st.blocks, st.inodes[i], o + k)
  {
    hide Addr, SlotOf;
    forall k | 0 <= k < m ensures chunk[k] == FileByte(st.blocks, st.inodes[i], o + k) {
      ChunkPosition(o, k);
      assert FileByte(st'.blocks, st'.inodes[i], o + k) == FileByte(st.blocks, st.inodes[i], o + k);
    }
  }

  predicate Taken(l: Layout, blocks: seq<Block>, b: nat) {
    BitBlock(l, b) < |blocks| && InUse(l, blocks, b)
  }

  /** The blocks whose bit is clear. */
  ghost function FreeBlocks(l: Layout, blocks: seq<Block>): set<nat> {
    set b | 0 <= b < l.size && !Taken(l, blocks, b)
  }

  lemma FreeIsUnowned(l: Layout, st: State)
    requires Inv(l, st) && st.pending == {}
    ensures forall b :: b in FreeBlocks(l, st.blocks) <==> l.data <= b < l.size && b !in st.owner
  {
    hide InUse, Inv;
    TakenExactly(l, st);
  }

  /** Allocating b takes it, and only it, from the free blocks. */
  lemma FreeLess(l: Layout, st: State, st': State, b: nat)
    requires Inv(l, st) && Inv(l, st') && st.pending == {} == st'.pending && st'.owner.Keys == st.owner.Keys + {b}
    requires l.data <= b < l.size && b !in st.owner
    ensures FreeBlocks(l, st'.blocks) == FreeBlocks(l, st.blocks) - {b} && b in FreeBlocks(l, st.blocks)
    ensures |FreeBlocks(l, st'.blocks)| == |FreeBlocks(l, st.blocks)| - 1
  {
    hide Inv, FreeBlocks;
    FreeIsUnowned(l, st);
    FreeIsUnowned(l, st');
    var x, y := FreeBlocks(l, st.blocks), FreeBlocks(l, st'.blocks);
    assert y == x - {b};
  }

  lemma FreeSame(l: Layout, st: State, st': State)
    requires Inv(l, st) && Inv(l, st') && st.pending == {} == st'.pending && st'.owner == st.owner
    ensures FreeBlocks(l, st'.blocks) == FreeBlocks(l, st.blocks)
  {
    hide Inv, FreeBlocks;
    FreeIsUnowned(l, st);
    FreeIsUnowned(l, st');
  }

  // ---- truncation ----

  /** Only bitmap blocks have been written. */
  ghost predicate SameDataArea(l: Layout, blocks: seq<Block>, blocks': seq<Block>) {
    |blocks'| == |blocks| && forall b :: l.data <= b < |blocks| ==> blocks'[b] == blocks[b]
  }

  /** The owners that are left when inode i gives up its blocks in the slots of `from`. */
  ghost function OwnerWithout(owner: map<nat, Slot>, i: nat, from: nat, to: nat): map<nat, Slot> {
    map b | b in owner && !(owner[b].inum == i && from <= owner[b].s < to) :: owner[b]
  }

  lemma FreeDirectKeepsInv(l: Layout, st: State, i: nat, s: nat)
    requires Inv(l, st) && st.pending == {} && i < |st.inodes| && s < NDIRECT && st.inodes[i].addrs[s] != 0
    ensures var b := st.inodes[i].addrs[s];
            && b < l.size && BitBlock(l, b) < l.data && InUse(l, st.blocks, b)
            && Inv(l, State(Mark(l, st.blocks, b, false), WithAddr(st.inodes, i, s, 0), st.owner - {b}, {}))
            && st.owner - {b} == OwnerWithout(st.owner, i, s, s + 1)
  {
    hide InUse, Mark, Word;
    var b: nat := st.inodes[i].addrs[s];
    DetachDirect(l, st, i, s);
    var st1 := Detached(st, i, s, {b});
    FreeKeepsInv(l, st1, b);
    BitBlockBelowData(l, st.blocks, b);
    assert Freed(l, st1, b) == State(Mark(l, st.blocks, b, false), WithAddr(st.inodes, i, s, 0), st.owner - {b}, {});
    forall c | c in st.owner && st.owner[c] == Slot(i, s) ensures c == b {
      assert Holds(st, Slot(i, s)) == c;
    }
  }

  /** The indirect block and the entries from j on. */
  ghost function Remaining(st: State, i: nat, j: nat): set<nat> {
    set b | b in st.owner && st.owner[b].inum == i && (st.owner[b].s == NDIRECT || st.owner[b].s >= NDIRECT + 1 + j)
  }

  lemma RemainingStep(l: Layout, st: State, i: nat, j: nat)
    requires Inv(l, st) && i < |st.inodes| && st.inodes[i].addrs[NDIRECT] != 0 && j < NINDIRECT
    ensures st.inodes[i].addrs[NDIRECT] < |st.blocks|
    ensures var e := Word(st.blocks[st.inodes[i].addrs[NDIRECT]], j);
            && (e != 0 ==> e in Remaining(st, i, j) && e != st.inodes[i].addrs[NDIRECT])
            && Remaining(st, i, j + 1) == Remaining(st, i, j) - {e}
  {
    hide InUse, Word;
    IndirectBlocks(l, st, i, j);
    var e := Word(st.blocks[st.inodes[i].addrs[NDIRECT]], j);
    forall b | b in st.owner && st.owner[b] == Slot(i, NDIRECT + 1 + j) ensures b == e {
      assert Holds(st, Slot(i, NDIRECT + 1 + j)) == b;
    }
    assert 0 !in st.owner;
  }

  lemma ZeroNotOwned(l: Layout, st: State)
    requires Inv(l, st)
    ensures 0 !in st.owner
  {
    hide InUse, Word;
  }

  lemma NothingOwned(l: Layout, st: State, i: nat, s: nat)
    requires Inv(l, st) && i < |st.inodes| && s <= NDIRECT && st.inodes[i].addrs[s] == 0
    ensures OwnerWithout(st.owner, i, s, s + 1) == st.owner
  {
    hide InUse, Word;
    forall b | b in st.owner ensures st.owner[b] != Slot(i, s) {
      assert Holds(st, st.owner[b]) == b != 0;
    }
  }

  lemma DetachedIs(st: State, i: nat)
    requires i < |st.inodes| && |st.inodes[i].addrs| == NDIRECT + 1 && st.pending == {}
    ensures Detached(st, i, NDIRECT, OwnedFrom(st, i, NDIRECT))
            == State(st.blocks, WithAddr(st.inodes, i, NDIRECT, 0), st.owner - OwnedFrom(st, i, NDIRECT), OwnedFrom(st, i, NDIRECT))
  {
  }

  lemma OwnedFromAll(l: Layout, st: State, i: nat)
    requires Inv(l, st)
    ensures st.owner - OwnedFrom(st, i, NDIRECT) == OwnerWithout(st.owner, i, NDIRECT, SLOTS)
  {
    hide InUse, Word, Holds;
    forall b | b in st.owner ensures st.owner[b].s < SLOTS {
    }
  }

  /** No file's bytes depend on the bitmap. */
  lemma OthersKeepBytes(l: Layout, st: State, blocks: seq<Block>)
    requires Inv(l, st) && SameDataArea(l, st.blocks, blocks)
    ensures forall k, o :: 0 <= k < |st.inodes| && |st.inodes[k].addrs| == NDIRECT + 1 && 0 <= o < MAXBYTES ==>
              FileByte(blocks, st.inodes[k], o) == FileByte(st.blocks, st.inodes[k], o)
  {
    hide InUse, Word;
    forall k, o | 0 <= k < |st.inodes| && 0 <= o < MAXBYTES
      ensures FileByte(blocks, st.inodes[k], o) == FileByte(st.blocks, st.inodes[k], o)
    {
      var x := Slot(k, SlotOf(o / BSIZE));
      assert IsSlot(st, x);
      HoldsKept(l, st, blocks, x);
    }
  }

  lemma OwnerWithoutMore(owner: map<nat, Slot>, i: nat, from: nat, to: nat)
    requires from <= to
    ensures OwnerWithout(OwnerWithout(owner, i, 0, from), i, from, to) == OwnerWithout(owner, i, 0, to)
    ensures OwnerWithout(owner, i, 0, 0) == owner
  {
  }

  /** An inode without an indirect block owns nothing through it. */
  lemma NoEntriesOwned(l: Layout, st: State, i: nat)
    requires Inv(l, st) && i < |st.inodes| && st.inodes[i].addrs[NDIRECT] == 0
    ensures OwnerWithout(st.owner, i, NDIRECT, SLOTS) == st.owner
  {
    hide InUse, Word;
    forall b | b in st.owner ensures !(st.owner[b].inum == i && st.owner[b].s >= NDIRECT) {
      assert Holds(st, st.owner[b]) == b != 0;
    }
  }

  lemma TakenExactly(l: Layout, st: State)
    requires Inv(l, st) && st.pending == {}
    ensures forall b :: 0 <= b < l.size ==> (Taken(l, st.blocks, b) <==> b < l.data || b in st.owner)
    ensures forall b :: b in st.owner ==> l.data <= b && st.owner[b].s < SLOTS
  {
    hide InUse, Word;
    forall b | 0 <= b < l.size ensures BitBlock(l, b) < |st.blocks| {
      BitBlockBelowData(l, st.blocks, b);
    }
  }

  lemma RemainingLast(l: Layout, st: State, i: nat)
    requires Inv(l, st) && i < |st.inodes| && st.inodes[i].addrs[NDIRECT] != 0
    ensures Remaining(st, i, 0) == OwnedFrom(st, i, NDIRECT)
    ensures Remaining(st, i, NINDIRECT) == {st.inodes[i].addrs[NDIRECT]}
  {
    hide InUse, Word;
    IndirectBlocks(l, st, i, 0);
    forall b | b in Remaining(st, i, NINDIRECT) ensures b == st.inodes[i].addrs[NDIRECT] {
      assert IsSlot(st, st.owner[b]) && Holds(st, st.owner[b]) == b;
    }
  }

  // ---- filewrite's transactions ----

  const MAXCHUNK: nat := 1536  // ((MAXOPBLOCKS - 1 - 1 - 2) / 2) * 512

  lemma TouchedBound(off: nat, n: nat)
    requires n <= MAXCHUNK
    ensures Touched(off, n) <= (if n == 0 then 0 else if off % BSIZE == 0 then 3 else 4)
  {
    assert off == off / BSIZE * BSIZE + off % BSIZE;
  }

  /** Four data blocks, three bitmap blocks for them, one for the indirect block, the indirect block and the
      inode's block: a write of MAXCHUNK bytes at any alignment to a file without holes logs at most MAXOPBLOCKS
      different blocks. */
  lemma TransactionFits(st: State, st': State, i: nat, off: nat, n: nat, lg: set<nat>, blks: set<nat>, bms: set<nat>, ib: nat)
    requires WriteLogged(st, st', i, off, n, {}, lg, blks, bms, ib) && n <= MAXCHUNK
    requires NoHoles(st, i) && off <= st.inodes[i].size
    ensures |lg| <= MAXOPBLOCKS
  {
    hide NoHoles, Touched;
    TouchedBound(off, n);
    var ind := Indirect(st', i);
    UnionCard(blks, bms);
    UnionCard(blks + bms, ind);
    UnionCard(blks + bms + ind, {ib});
    var all := blks + bms + ind + {ib};
    assert {} + blks + bms + ind + {ib} == all;
    UnionCard(lg, all - lg);
    assert all == lg + (all - lg);
    assert |all| == |lg| + |all - lg|;
  }

  lemma OverlayLength(c: seq<byte>, off: nat, x: seq<byte>)
    requires off <= |c|
    ensures |Overlay(c, off, x)| >= off + |x|
  {
  }

  lemma OverlayNothing(c: seq<byte>, off: nat)
    requires off <= |c|
    ensures Overlay(c, off, []) == c
  {
  }

  lemma OverlayConcat(c: seq<byte>, off: nat, x: seq<byte>, y: seq<byte>)
    requires off <= |c|
    ensures off + |x| <= |Overlay(c, off, x)|
    ensures Overlay(Overlay(c, off, x), off + |x|, y) == Overlay(c, off, x + y)
  {
    var o := Overlay(c, off, x);
    var n := off + |x| + |y|;
    assert n == off + |x + y|;
    assert o[..off + |x|] == c[..off] + x;
    assert n < |o| <==> n < |c|;
    if n < |c| {
      assert o[n..] == c[n..];
    }
    assert c[..off] + x + y == c[..off] + (x + y);
  }
}
