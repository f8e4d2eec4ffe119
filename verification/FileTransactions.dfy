/** The transactions of the file layer: what one changes on the disk, and the history that filewrite (file.c) leaves. */
module FileTransactions {
  import opened Blocks
  import opened Bitmap
  import opened Dinodes
  import opened BlockMap
  import opened FileContents

  /** The file system at begin_op and at end_op, and the blocks given to log_write in between. */
  datatype Txn = Txn(before: State, after: State, logged: set<nat>)

  /** Nothing but the logged blocks has changed, and these are inode, bitmap and data blocks. */
  ghost predicate Logging(inodestart: nat, base: seq<Block>, blocks: seq<Block>, lg: set<nat>) {
    && |blocks| == |base| && (forall b :: b in lg ==> inodestart <= b < |blocks|)
    && forall b :: 0 <= b < |blocks| && b !in lg ==> blocks[b] == base[b]
  }

  lemma LoggingStarts(inodestart: nat, blocks: seq<Block>)
    ensures Logging(inodestart, blocks, blocks, {})
  {
  }

  lemma LoggingMore(inodestart: nat, base: seq<Block>, blocks: seq<Block>, lg: set<nat>, b: nat, data: Block)
    requires Logging(inodestart, base, blocks, lg) && inodestart <= b < |blocks|
    ensures Logging(inodestart, base, blocks[b := data], lg + {b})
  {
  }

  /** The inode blocks lie below the bitmap. */
  predicate AreaBelow(l: Layout, inodestart: nat, n: nat) {
    inodestart + n / IPB < l.bmap
  }

  lemma InodesUntouched(l: Layout, inodestart: nat, n: nat, blocks: seq<Block>, b: nat, data: Block)
    requires AreaBelow(l, inodestart, n) && l.bmap <= b < |blocks|
    ensures InodesOf(inodestart, n, blocks[b := data]) == InodesOf(inodestart, n, blocks)
  {
    InodesSame(inodestart, n, blocks, blocks[b := data]);
  }

  /** The disk holds the inodes that are in core, and the blocks are in order. */
  ghost predicate OnDisk(l: Layout, inodestart: nat, n: nat, st: State) {
    Inv(l, st) && st.pending == {} && st.inodes == InodesOf(inodestart, n, st.blocks)
  }

  /** A transaction that leads from one file system in order to another. */
  ghost predicate Ordered(l: Layout, inodestart: nat, n: nat, t: Txn) {
    && OnDisk(l, inodestart, n, t.before) && OnDisk(l, inodestart, n, t.after)
    && Logging(inodestart, t.before.blocks, t.after.blocks, t.logged)
  }

  /** One that keeps to the reservation of one operation. */
  ghost predicate Proper(l: Layout, inodestart: nat, n: nat, t: Txn) {
    Ordered(l, inodestart, n, t) && |t.logged| <= MAXOPBLOCKS
  }

  ghost predicate HasContents(st: State, i: nat, c: seq<byte>) {
    && i < |st.inodes| && |st.inodes[i].addrs| == NDIRECT + 1 && st.inodes[i].size <= MAXBYTES
    && Contents(st, i) == c
  }

  /** Every inode but i is as before, with the same bytes. */
  ghost predicate OthersKept(st: State, st': State, i: nat) {
    && |st'.inodes| == |st.inodes|
    && (forall k :: 0 <= k < |st.inodes| && k != i ==> st'.inodes[k] == st.inodes[k])
    && forall k, o :: 0 <= k < |st.inodes| && k != i && |st.inodes[k].addrs| == NDIRECT + 1 && 0 <= o < MAXBYTES ==>
         FileByte(st'.blocks, st.inodes[k], o) == FileByte(st.blocks, st.inodes[k], o)
  }

  lemma OthersKeptTrans(st: State, st1: State, st2: State, i: nat)
    requires OthersKept(st, st1, i) && OthersKept(st1, st2, i)
    ensures OthersKept(st, st2, i)
  {
    hide FileByte;
    forall k, o | 0 <= k < |st.inodes| && k != i && |st.inodes[k].addrs| == NDIRECT + 1 && 0 <= o < MAXBYTES
      ensures FileByte(st2.blocks, st.inodes[k], o) == FileByte(st.blocks, st.inodes[k], o)
    {
      assert st1.inodes[k] == st.inodes[k];
      assert FileByte(st1.blocks, st.inodes[k], o) == FileByte(st.blocks, st.inodes[k], o);
    }
  }

  lemma OthersKeptRefl(st: State, i: nat)
    ensures OthersKept(st, st, i)
  {
  }

  /** How many bytes filewrite has written after t of its transactions. */
  function ChunkEnd(n: nat, t: nat): (m: nat)
    ensures m <= n
  {
    if t * MAXCHUNK < n then t * MAXCHUNK else n
  }

  lemma ChunkNext(n: nat, t: nat, done: nat, n1: nat)
    requires done == ChunkEnd(n, t) < n && n1 == if n - done > MAXCHUNK then MAXCHUNK else n - done
    ensures ChunkEnd(n, t + 1) == done + n1
  {
  }

  /** n bytes in t transactions, as far as `done`: one for every 1536 bytes, the last possibly for fewer. */
  ghost predicate OnePer1536(n: nat, t: nat, done: nat) {
    t == (done + 1535) / 1536 && (done == n || done % 1536 == 0)
  }

  lemma ChunkCount(n: nat, t: nat, done: nat)
    requires done == ChunkEnd(n, t) && (t > 0 ==> ChunkEnd(n, t - 1) < done)
    ensures OnePer1536(n, t, done)
  {
  }

  /** One transaction of filewrite: file i goes from the first ChunkEnd(t) bytes of src to the first ChunkEnd(t + 1),
      and no other file changes. */
  ghost predicate Wrote(x: Txn, i: nat, c: seq<byte>, off: nat, src: seq<byte>, t: nat)
    requires off <= |c|
  {
    && HasContents(x.before, i, Overlay(c, off, src[..ChunkEnd(|src|, t)]))
    && HasContents(x.after, i, Overlay(c, off, src[..ChunkEnd(|src|, t + 1)]))
    && OthersKept(x.before, x.after, i)
  }

  /** The file system after the first t transactions. */
  ghost function StateAfter(ts: seq<Txn>, st: State, t: nat): State
    requires t <= |ts|
  {
    if t == 0 then st else ts[t - 1].after
  }

  /** Transaction t starts where the one before it ended. */
  ghost predicate StartsThere(ts: seq<Txn>, st: State, t: nat)
    requires t < |ts|
  {
    ts[t].before == StateAfter(ts, st, t)
  }

  /** The transactions of one filewrite of src at off to a file with contents c, starting from st. */
  ghost predicate WriteHistory(ts: seq<Txn>, st: State, i: nat, c: seq<byte>, off: nat, src: seq<byte>)
    requires off <= |c|
  {
    forall t: nat :: t < |ts| ==> StartsThere(ts, st, t) && Wrote(ts[t], i, c, off, src, t)
  }

  lemma HistoryGrows(ts: seq<Txn>, x: Txn, st: State, i: nat, c: seq<byte>, off: nat, src: seq<byte>)
    requires off <= |c| && WriteHistory(ts, st, i, c, off, src)
    requires x.before == StateAfter(ts, st, |ts|) && Wrote(x, i, c, off, src, |ts|)
    ensures WriteHistory(ts + [x], st, i, c, off, src) && StateAfter(ts + [x], st, |ts| + 1) == x.after
  {
    hide Wrote;
    forall t: nat | t < |ts| + 1
      ensures StartsThere(ts + [x], st, t) && Wrote((ts + [x])[t], i, c, off, src, t)
    {
      assert t < |ts| ==> StartsThere(ts, st, t);
    }
  }

  /** writei of the next chunk is one transaction of that history. */
  lemma ChunkWrote(x: Txn, i: nat, c: seq<byte>, off: nat, src: seq<byte>, t: nat, done: nat, n1: nat)
    requires off <= |c| && done == ChunkEnd(|src|, t) < |src| && n1 == (if |src| - done > MAXCHUNK then MAXCHUNK else |src| - done)
    requires HasContents(x.before, i, Overlay(c, off, src[..done])) && off + done <= x.before.inodes[i].size
    requires i < |x.after.inodes| && |x.after.inodes[i].addrs| == NDIRECT + 1 && x.after.inodes[i].size <= MAXBYTES
    requires Contents(x.after, i) == Overlay(Contents(x.before, i), off + done, src[done..done + n1])
    requires Written(x.before, x.after, i, off + done, src[done..done + n1])
    requires forall k :: 0 <= k < |x.before.inodes| && k != i ==> x.after.inodes[k] == x.before.inodes[k]
    ensures Wrote(x, i, c, off, src, t) && OthersKept(x.before, x.after, i)
    ensures HasContents(x.after, i, Overlay(c, off, src[..done + n1])) && off + done + n1 <= x.after.inodes[i].size
    ensures ChunkEnd(|src|, t + 1) == done + n1
  {
    hide FileByte, Contents, Overlay, Written, OthersKept;
    var chunk := src[done..done + n1];
    OverlayConcat(c, off, src[..done], chunk);
    SliceConcat(src, done, n1);
    OverlayLength(Contents(x.before, i), off + done, chunk);
    WrittenKeepsOthers(x.before, x.after, i, off + done, chunk);
  }

  ghost predicate AllProper(l: Layout, inodestart: nat, n: nat, ts: seq<Txn>) {
    forall t :: 0 <= t < |ts| ==> Proper(l, inodestart, n, ts[t])
  }

  // ---- several operations in one commit ----

  ghost function AllLogged(ts: seq<Txn>): set<nat> {
    if ts == [] then {} else AllLogged(ts[..|ts| - 1]) + ts[|ts| - 1].logged
  }

  /** The operations between two commits, taken as one transaction that starts from st. */
  ghost function Group(ts: seq<Txn>, st: State): Txn {
    Txn(st, StateAfter(ts, st, |ts|), AllLogged(ts))
  }

  ghost predicate Chained(ts: seq<Txn>, st: State) {
    forall t: nat :: t < |ts| ==> StartsThere(ts, st, t)
  }

  lemma LoggingTwice(inodestart: nat, x: seq<Block>, y: seq<Block>, z: seq<Block>, a: set<nat>, b: set<nat>)
    requires Logging(inodestart, x, y, a) && Logging(inodestart, y, z, b)
    ensures Logging(inodestart, x, z, a + b)
  {
  }

  /** Operations that follow one another make one transaction that is in order, however many they are. */
  lemma {:induction false} GroupOrdered(l: Layout, inodestart: nat, n: nat, ts: seq<Txn>, st: State)
    requires OnDisk(l, inodestart, n, st) && Chained(ts, st) && forall t :: 0 <= t < |ts| ==> Ordered(l, inodestart, n, ts[t])
    ensures Ordered(l, inodestart, n, Group(ts, st))
    decreases |ts|
  {
    hide OnDisk, Logging;
    if ts == [] {
      LoggingStarts(inodestart, st.blocks);
    } else {
      var m := |ts| - 1;
      var front := ts[..m];
      forall t: nat | t < |front| ensures StartsThere(front, st, t) {
        assert StartsThere(ts, st, t);
      }
      GroupOrdered(l, inodestart, n, front, st);
      assert StartsThere(ts, st, m) && StateAfter(front, st, m) == ts[m].before;
      LoggingTwice(inodestart, st.blocks, ts[m].before.blocks, ts[m].after.blocks, AllLogged(front), ts[m].logged);
    }
  }

  /** Together they log no more than all their reservations. */
  lemma {:induction false} GroupSize(ts: seq<Txn>)
    requires forall t :: 0 <= t < |ts| ==> |ts[t].logged| <= MAXOPBLOCKS
    ensures |AllLogged(ts)| <= |ts| * MAXOPBLOCKS
    decreases |ts|
  {
    if ts != [] {
      GroupSize(ts[..|ts| - 1]);
      UnionCard(AllLogged(ts[..|ts| - 1]), ts[|ts| - 1].logged);
    }
  }

  lemma HistoryStarts(st: State, i: nat, c: seq<byte>, off: nat, src: seq<byte>)
    requires off <= |c|
    ensures WriteHistory([], st, i, c, off, src) && OthersKept(st, st, i) && Overlay(c, off, src[..0]) == c
    ensures StateAfter([], st, 0) == st && ChunkEnd(|src|, 0) == 0
    ensures forall l, from, n :: AllProper(l, from, n, [])
  {
    OverlayNothing(c, off);
    assert src[..0] == [];
  }

  lemma ProperGrows(l: Layout, inodestart: nat, n: nat, ts: seq<Txn>, x: Txn)
    requires AllProper(l, inodestart, n, ts) && Proper(l, inodestart, n, x)
    ensures AllProper(l, inodestart, n, ts + [x])
  {
    hide Proper;
  }

  /** After any number of them the file holds that part of src, and the other files are as at the start. */
  lemma {:induction false} HistoryState(ts: seq<Txn>, st: State, i: nat, c: seq<byte>, off: nat, src: seq<byte>, t: nat)
    requires off <= |c| && WriteHistory(ts, st, i, c, off, src) && t <= |ts| && HasContents(st, i, c)
    ensures HasContents(StateAfter(ts, st, t), i, Overlay(c, off, src[..ChunkEnd(|src|, t)]))
    ensures OthersKept(st, StateAfter(ts, st, t), i)
  {
    hide HasContents, OthersKept, Overlay;
    if t == 0 {
      OverlayNothing(c, off);
      assert src[..0] == [];
      OthersKeptRefl(st, i);
    } else {
      HistoryState(ts, st, i, c, off, src, t - 1);
      assert StartsThere(ts, st, t - 1);
      OthersKeptTrans(st, ts[t - 1].before, ts[t - 1].after, i);
    }
  }

  lemma WrittenKeepsOthers(st: State, st': State, i: nat, off: nat, src: seq<byte>)
    requires Written(st, st', i, off, src) && forall k :: 0 <= k < |st.inodes| && k != i ==> st'.inodes[k] == st.inodes[k]
    ensures OthersKept(st, st', i)
  {
    hide FileByte;
  }
}
