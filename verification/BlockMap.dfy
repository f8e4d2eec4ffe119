/** Which inode owns which disk block (bmap and itrunc in fs.c), as facts about values. */
module BlockMap {
  import opened Blocks
  import opened Bitmap
  import opened Dinodes

  const NDIRECT: nat := 7
  const NINDIRECT: nat := 128  // BSIZE / sizeof(uint)
  const MAXFILE: nat := 135    // NDIRECT + NINDIRECT
  const SLOTS: nat := 136      // NDIRECT + 1 + NINDIRECT

  /** A place that holds a block number: addrs[s] for s <= NDIRECT (the last one is the indirect block), or
      entry s - NDIRECT - 1 of the indirect block. */
  datatype Slot = Slot(inum: nat, s: nat)

  /** The disk as bread shows it, the in-core inodes, the owner of each allocated data block, and the blocks that
      are marked in use but not linked to an inode at the moment. */
  datatype State = State(blocks: seq<Block>, inodes: seq<Inode>, owner: map<nat, Slot>, pending: set<nat>)

  function Entry(blocks: seq<Block>, indirect: uint32, j: nat): uint32
    requires j < NINDIRECT
  {
    if indirect == 0 || indirect >= |blocks| then 0 else Word(blocks[indirect], j)
  }

  function Addr(blocks: seq<Block>, ino: Inode, s: nat): uint32
    requires |ino.addrs| == NDIRECT + 1 && s < SLOTS
  {
    if s <= NDIRECT then ino.addrs[s] else Entry(blocks, ino.addrs[NDIRECT], s - NDIRECT - 1)
  }

  /** The slot of the bn-th block of a file. */
  function SlotOf(bn: nat): (s: nat)
    requires bn < MAXFILE
    ensures s < SLOTS && s != NDIRECT
  {
    if bn < NDIRECT then bn else bn + 1
  }

  ghost predicate Shape(l: Layout, st: State) {
    && l.Valid(st.blocks)
    && forall i :: 0 <= i < |st.inodes| ==> |st.inodes[i].addrs| == NDIRECT + 1
  }

  /** The block that a slot holds, if any. */
  ghost function Holds(st: State, x: Slot): uint32
    requires x.inum < |st.inodes| && |st.inodes[x.inum].addrs| == NDIRECT + 1 && x.s < SLOTS
  {
    Addr(st.blocks, st.inodes[x.inum], x.s)
  }

  ghost predicate IsSlot(st: State, x: Slot) {
    x.inum < |st.inodes| && |st.inodes[x.inum].addrs| == NDIRECT + 1 && x.s < SLOTS
  }

  /** Every owned block is a data block held by its owner... */
  ghost predicate OwnersHold(l: Layout, st: State) {
    forall b :: b in st.owner ==>
      l.data <= b < l.size && b !in st.pending && IsSlot(st, st.owner[b]) && Holds(st, st.owner[b]) == b
  }

  /** ...every slot that holds a block owns it (so no two slots hold the same block)... */
  ghost predicate HoldersOwn(st: State) {
    forall x :: IsSlot(st, x) && Holds(st, x) != 0 ==> Holds(st, x) in st.owner && st.owner[Holds(st, x)] == x
  }

  /** ...and the bitmap marks exactly the metadata, the owned and the pending blocks. */
  ghost predicate BitmapExact(l: Layout, st: State)
    requires Shape(l, st)
  {
    && (forall b :: b in st.pending ==> l.data <= b < l.size)
    && forall b :: 0 <= b < l.size ==> (InUse(l, st.blocks, b) <==> b < l.data || b in st.owner || b in st.pending)
  }

  ghost predicate Inv(l: Layout, st: State) {
    Shape(l, st) && OwnersHold(l, st) && HoldersOwn(st) && BitmapExact(l, st)
  }

  lemma InvShape(l: Layout, st: State)
    requires Inv(l, st)
    ensures Shape(l, st)
  {
  }

  /** A change of blocks that are no indirect blocks, and of no inode, keeps what every slot holds. */
  ghost predicate SameIndirect(st: State, blocks: seq<Block>) {
    && |blocks| == |st.blocks|
    && forall b :: 0 <= b < |blocks| && b in st.owner && st.owner[b].s == NDIRECT ==> blocks[b] == st.blocks[b]
  }

  lemma HoldsKept(l: Layout, st: State, blocks: seq<Block>, x: Slot)
    requires Inv(l, st) && SameIndirect(st, blocks) && IsSlot(st, x)
    ensures Holds(st.(blocks := blocks), x) == Holds(st, x)
  {
    var ind := st.inodes[x.inum].addrs[NDIRECT];
    if x.s > NDIRECT && ind != 0 {
      var y := Slot(x.inum, NDIRECT);
      assert IsSlot(st, y) && Holds(st, y) == ind;
    }
  }

  /** Blocks that are neither indirect blocks nor bitmap blocks may be written freely. */
  lemma WriteKeepsInv(l: Layout, st: State, blocks: seq<Block>)
    requires Inv(l, st) && SameIndirect(st, blocks)
    requires forall b :: l.bmap <= b < l.data ==> blocks[b] == st.blocks[b]
    ensures Inv(l, st.(blocks := blocks))
  {
    var st' := st.(blocks := blocks);
    forall x | IsSlot(st, x) ensures Holds(st', x) == Holds(st, x) {
      HoldsKept(l, st, blocks, x);
    }
    assert forall x :: IsSlot(st', x) <==> IsSlot(st, x);
    forall b | 0 <= b < l.size ensures InUse(l, blocks, b) == InUse(l, st.blocks, b) {
      BitBlockBelowData(l, st.blocks, b);
    }
  }

  lemma BitBlockBelowData(l: Layout, blocks: seq<Block>, b: nat)
    requires l.Valid(blocks) && b < l.size
    ensures l.bmap <= BitBlock(l, b) < l.data
  {
  }

  // ---- generic steps ----

  ghost predicate SameSlots(st: State, st': State) {
    |st'.inodes| == |st.inodes| && forall i :: 0 <= i < |st.inodes| ==> |st'.inodes[i].addrs| == |st.inodes[i].addrs|
  }

  /** Nothing moved: what every slot holds is as before. */
  ghost predicate SameHolds(st: State, st': State) {
    SameSlots(st, st') && forall x :: IsSlot(st, x) ==> IsSlot(st', x) && Holds(st', x) == Holds(st, x)
  }

  /** Slot y, which held nothing, now holds b; nothing else moved. */
  ghost predicate Gained(st: State, st': State, y: Slot, b: nat) {
    && SameSlots(st, st') && IsSlot(st, y) && Holds(st, y) == 0
    && forall x :: IsSlot(st, x) ==> IsSlot(st', x) && Holds(st', x) == if x == y then b else Holds(st, x)
  }

  lemma OwnershipKept(l: Layout, st: State, st': State)
    requires Inv(l, st) && SameHolds(st, st') && st'.owner == st.owner && st'.pending !! st.owner.Keys
    ensures OwnersHold(l, st') && HoldersOwn(st')
  {
    assert forall x :: IsSlot(st', x) ==> IsSlot(st, x);
  }

  lemma OwnershipGained(l: Layout, st: State, st': State, y: Slot, b: nat)
    requires Inv(l, st) && Gained(st, st', y, b) && b in st.pending
    requires st'.owner == st.owner[b := y] && st'.pending == st.pending - {b}
    ensures OwnersHold(l, st') && HoldersOwn(st')
  {
    hide Word, InUse;
    assert b !in st.owner;
    assert forall x :: IsSlot(st', x) ==> IsSlot(st, x);
    forall c | c in st'.owner
      ensures l.data <= c < l.size && c !in st'.pending && IsSlot(st', st'.owner[c]) && Holds(st', st'.owner[c]) == c
    {
      assert c != b ==> c in st.owner && Holds(st, st.owner[c]) == c && st.owner[c] != y;
    }
  }

  /** The bitmap blocks are below the data blocks. */
  lemma BitmapKept(l: Layout, st: State, st': State)
    requires Shape(l, st) && Shape(l, st') && BitmapExact(l, st)
    requires forall b :: 0 <= b < l.data ==> st'.blocks[b] == st.blocks[b]
    requires forall b :: b in st'.owner || b in st'.pending <==> b in st.owner || b in st.pending
    requires st'.pending <= st.pending
    ensures BitmapExact(l, st')
  {
    forall c | 0 <= c < l.size ensures InUse(l, st'.blocks, c) == InUse(l, st.blocks, c) {
      BitBlockBelowData(l, st.blocks, c);
    }
  }

  lemma BitmapMarked(l: Layout, blocks: seq<Block>, b: nat, on: bool)
    requires l.Valid(blocks) && b < l.size && BitBlock(l, b) < |blocks|
    ensures forall c :: 0 <= c < l.size ==> (InUse(l, Mark(l, blocks, b, on), c) <==> if c == b then on else InUse(l, blocks, c))
  {
    forall c | 0 <= c < l.size ensures InUse(l, Mark(l, blocks, b, on), c) <==> if c == b then on else InUse(l, blocks, c) {
      BitBlockBelowData(l, blocks, c);
      InUseOfMark(l, blocks, b, on, c);
    }
  }

  // ---- what each operation does to the state ----

  /** balloc: mark a free block and zero it. */
  function Allocated(l: Layout, st: State, b: nat): State
    requires BitBlock(l, b) < |st.blocks| && b < |st.blocks|
  {
    State(Mark(l, st.blocks, b, true)[b := Zeroes()], st.inodes, st.owner, st.pending + {b})
  }

  lemma AllocateKeepsInv(l: Layout, st: State, b: nat)
    requires Inv(l, st) && b < l.size && BitBlock(l, b) < |st.blocks| && !InUse(l, st.blocks, b)
    ensures l.data <= b && b !in st.owner && b !in st.pending
    ensures Inv(l, Allocated(l, st, b)) && SameHolds(st, Allocated(l, st, b))
  {
    hide InUse;
    var st' := Allocated(l, st, b);
    BitBlockBelowData(l, st.blocks, b);
    forall x | IsSlot(st, x) ensures Holds(st', x) == Holds(st, x) {
      HoldsKept(l, st, st'.blocks, x);
    }
    OwnershipKept(l, st, st');
    BitmapMarked(l, st.blocks, b, true);
    var marked := st.(blocks := Mark(l, st.blocks, b, true), pending := st.pending + {b});
    assert BitmapExact(l, marked);
    BitmapKept(l, marked, st');
  }

  /** bfree of a block no slot holds any more. */
  function Freed(l: Layout, st: State, b: nat): State
    requires BitBlock(l, b) < |st.blocks|
  {
    State(Mark(l, st.blocks, b, false), st.inodes, st.owner, st.pending - {b})
  }

  lemma FreeKeepsInv(l: Layout, st: State, b: nat)
    requires Inv(l, st) && b in st.pending
    ensures b < l.size && BitBlock(l, b) < |st.blocks| && InUse(l, st.blocks, b)
    ensures Inv(l, Freed(l, st, b)) && SameHolds(st, Freed(l, st, b))
  {
    BitBlockBelowData(l, st.blocks, b);
    hide InUse;
    var st' := Freed(l, st, b);
    forall x | IsSlot(st, x) ensures Holds(st', x) == Holds(st, x) {
      HoldsKept(l, st, st'.blocks, x);
    }
    OwnershipKept(l, st, st');
    BitmapMarked(l, st.blocks, b, false);
  }

  function WithAddr(inodes: seq<Inode>, i: nat, s: nat, b: uint32): seq<Inode>
    requires i < |inodes| && s < |inodes[i].addrs|
  {
    inodes[i := inodes[i].(addrs := inodes[i].addrs[s := b])]
  }

  /** bmap stores a fresh zeroed block in addrs[s]. */
  function LinkedDirect(st: State, i: nat, s: nat, b: uint32): State
    requires i < |st.inodes| && s < |st.inodes[i].addrs|
  {
    State(st.blocks, WithAddr(st.inodes, i, s, b), st.owner[b := Slot(i, s)], st.pending - {b})
  }

  lemma LinkDirectKeepsInv(l: Layout, st: State, i: nat, s: nat, b: uint32)
    requires Inv(l, st) && i < |st.inodes| && s <= NDIRECT && st.inodes[i].addrs[s] == 0
    requires b in st.pending && st.blocks[b] == Zeroes()
    ensures Inv(l, LinkedDirect(st, i, s, b)) && Gained(st, LinkedDirect(st, i, s, b), Slot(i, s), b)
  {
    var st' := LinkedDirect(st, i, s, b);
    forall x | IsSlot(st, x) ensures Holds(st', x) == if x == Slot(i, s) then b else Holds(st, x) {
      if x.inum == i && x.s > NDIRECT && s == NDIRECT {
        WordOfZero(x.s - NDIRECT - 1);
      }
    }
    OwnershipGained(l, st, st', Slot(i, s), b);
    BitmapKept(l, st, st');
  }

  /** bmap stores a fresh zeroed block in entry j of the indirect block. */
  function LinkedEntry(st: State, i: nat, j: nat, b: uint32): State
    requires i < |st.inodes| && |st.inodes[i].addrs| == NDIRECT + 1 && j < NINDIRECT && st.inodes[i].addrs[NDIRECT] < |st.blocks|
  {
    var ind := st.inodes[i].addrs[NDIRECT];
    State(st.blocks[ind := PutWord(st.blocks[ind], j, b)], st.inodes,
          st.owner[b := Slot(i, NDIRECT + 1 + j)], st.pending - {b})
  }

  lemma EntryAfterPut(l: Layout, st: State, i: nat, j: nat, b: uint32, x: Slot)
    requires Inv(l, st) && i < |st.inodes| && j < NINDIRECT && 0 < st.inodes[i].addrs[NDIRECT] < l.size && IsSlot(st, x)
    ensures IsSlot(LinkedEntry(st, i, j, b), x)
    ensures Holds(LinkedEntry(st, i, j, b), x) == if x == Slot(i, NDIRECT + 1 + j) then b else Holds(st, x)
  {
    var ind := st.inodes[i].addrs[NDIRECT];
    assert IsSlot(st, Slot(i, NDIRECT)) && Holds(st, Slot(i, NDIRECT)) == ind;
    if x.s > NDIRECT && st.inodes[x.inum].addrs[NDIRECT] == ind {
      assert IsSlot(st, Slot(x.inum, NDIRECT)) && Holds(st, Slot(x.inum, NDIRECT)) == ind;
      WordOfPutWord(st.blocks[ind], j, b, x.s - NDIRECT - 1);
    }
  }

  lemma LinkEntryKeepsInv(l: Layout, st: State, i: nat, j: nat, b: uint32)
    requires Inv(l, st) && i < |st.inodes| && j < NINDIRECT && st.inodes[i].addrs[NDIRECT] != 0
    requires b in st.pending && Holds(st, Slot(i, NDIRECT + 1 + j)) == 0
    ensures l.data <= st.inodes[i].addrs[NDIRECT] < l.size && st.inodes[i].addrs[NDIRECT] != b
    ensures Inv(l, LinkedEntry(st, i, j, b)) && Gained(st, LinkedEntry(st, i, j, b), Slot(i, NDIRECT + 1 + j), b)
  {
    hide Word, PutWord, InUse;
    var me, y := Slot(i, NDIRECT), Slot(i, NDIRECT + 1 + j);
    assert IsSlot(st, me) && Holds(st, me) == st.inodes[i].addrs[NDIRECT];
    var st' := LinkedEntry(st, i, j, b);
    forall x | IsSlot(st, x) ensures IsSlot(st', x) && Holds(st', x) == if x == y then b else Holds(st, x) {
      EntryAfterPut(l, st, i, j, b, x);
    }
    OwnershipGained(l, st, st', y, b);
    BitmapKept(l, st, st');
  }

  // ---- detaching blocks from an inode ----

  /** The slots that held the blocks D now hold nothing; nothing else moved. */
  ghost predicate Lost(st: State, st': State, d: set<nat>) {
    && SameSlots(st, st')
    && forall x :: IsSlot(st, x) ==> IsSlot(st', x) && Holds(st', x) == if Holds(st, x) in d then 0 else Holds(st, x)
  }

  lemma OwnershipLost(l: Layout, st: State, st': State, d: set<nat>)
    requires Inv(l, st) && Lost(st, st', d) && d <= st.owner.Keys
    requires st'.owner == st.owner - d && st'.pending == st.pending + d
    ensures OwnersHold(l, st') && HoldersOwn(st')
  {
    assert forall x :: IsSlot(st', x) ==> IsSlot(st, x);
    forall c | c in st'.owner
      ensures l.data <= c < l.size && c !in st'.pending && IsSlot(st', st'.owner[c]) && Holds(st', st'.owner[c]) == c
    {
      assert c in st.owner && Holds(st, st.owner[c]) == c;
    }
  }

  /** The blocks inode i holds in slots from s0 on. */
  ghost function OwnedFrom(st: State, i: nat, s0: nat): set<nat> {
    set b | b in st.owner && st.owner[b].inum == i && st.owner[b].s >= s0
  }

  /** Clearing addrs[s] detaches that block, and for the indirect block also all its entries. */
  function Detached(st: State, i: nat, s: nat, d: set<nat>): State
    requires i < |st.inodes| && s < |st.inodes[i].addrs|
  {
    State(st.blocks, WithAddr(st.inodes, i, s, 0), st.owner - d, st.pending + d)
  }

  lemma DetachDirect(l: Layout, st: State, i: nat, s: nat)
    requires Inv(l, st) && i < |st.inodes| && s < NDIRECT && st.inodes[i].addrs[s] != 0
    ensures Inv(l, Detached(st, i, s, {st.inodes[i].addrs[s]}))
    ensures Lost(st, Detached(st, i, s, {st.inodes[i].addrs[s]}), {st.inodes[i].addrs[s]})
    ensures st.inodes[i].addrs[s] in st.owner && st.owner[st.inodes[i].addrs[s]] == Slot(i, s)
  {
    hide Word, InUse;
    var b: nat := st.inodes[i].addrs[s];
    var me := Slot(i, s);
    assert IsSlot(st, me) && Holds(st, me) == b;
    var st' := Detached(st, i, s, {b});
    forall x | IsSlot(st, x) ensures IsSlot(st', x) && Holds(st', x) == if Holds(st, x) == b then 0 else Holds(st, x) {
      assert x == me <==> Holds(st, x) == b;
    }
    OwnershipLost(l, st, st', {b});
    DetachKeepsBitmap(l, st, i, s, {b});
  }

  lemma DetachKeepsBitmap(l: Layout, st: State, i: nat, s: nat, d: set<nat>)
    requires Inv(l, st) && i < |st.inodes| && s <= NDIRECT && d <= st.owner.Keys
    ensures Shape(l, Detached(st, i, s, d)) && BitmapExact(l, Detached(st, i, s, d))
  {
    hide InUse;
  }

  lemma DetachIndirect(l: Layout, st: State, i: nat)
    requires Inv(l, st) && i < |st.inodes| && st.inodes[i].addrs[NDIRECT] != 0
    ensures var d := OwnedFrom(st, i, NDIRECT);
            Inv(l, Detached(st, i, NDIRECT, d)) && Lost(st, Detached(st, i, NDIRECT, d), d)
  {
    var d := OwnedFrom(st, i, NDIRECT);
    var st' := Detached(st, i, NDIRECT, d);
    forall x | IsSlot(st, x) ensures IsSlot(st', x) && Holds(st', x) == if Holds(st, x) in d then 0 else Holds(st, x) {
    }
    OwnershipLost(l, st, st', d);
    DetachKeepsBitmap(l, st, i, NDIRECT, d);
  }

  /** The blocks behind the indirect block: the block itself and its non-zero entries, each once. */
  lemma IndirectBlocks(l: Layout, st: State, i: nat, j: nat)
    requires Inv(l, st) && i < |st.inodes| && st.inodes[i].addrs[NDIRECT] != 0 && j < NINDIRECT
    ensures var ind := st.inodes[i].addrs[NDIRECT];
            && ind < l.size && ind in st.owner && st.owner[ind] == Slot(i, NDIRECT)
            && (var e := Word(st.blocks[ind], j); e != 0 ==> e in st.owner && st.owner[e] == Slot(i, NDIRECT + 1 + j))
  {
    var me, y := Slot(i, NDIRECT), Slot(i, NDIRECT + 1 + j);
    assert IsSlot(st, me) && Holds(st, me) == st.inodes[i].addrs[NDIRECT];
    assert IsSlot(st, y);
  }
}
