/** The file system over the log: a crash at any point of a transaction, and of the recoveries after it, leaves a file
    system in order whose files are all as before the transaction or all as after it. */
module CrashSafety {
  import opened Blocks
  import opened Bitmap
  import opened Dinodes
  import opened BlockMap
  import opened FileContents
  import opened FileTransactions
  import opened RedoLog
  import opened LogSystem
  import Transactions
  import Files
  import Mkfs
  import RootHole

  /** What a reboot reads from a disk: the inodes are where mkfs put them. */
  ghost function FileSystem(disk: seq<Block>, inodestart: nat, n: nat, owner: map<nat, Slot>): State {
    State(disk, InodesOf(inodestart, n, disk), owner, {})
  }

  /** The log lies below the inode blocks, these below the bitmap, and the log holds any one transaction. */
  ghost predicate LaidOut(a: Area, l: Layout, inodestart: nat, n: nat) {
    a.start + a.size <= inodestart && AreaBelow(l, inodestart, n) && MAXOPBLOCKS < a.size
  }

  /** mkfs lays the disk out so. */
  lemma MkfsLaidOut()
    ensures LaidOut(Area(Mkfs.LOGSTART, Mkfs.NLOG), Layout(Mkfs.FSSIZE, Mkfs.BMAPSTART, Mkfs.NMETA), Mkfs.INODESTART, Mkfs.NINODES)
  {
  }

  lemma HomeAgrees(a: Area, x: seq<Block>, y: seq<Block>)
    requires |x| == |y| && HomeBlocks(a, x) == HomeBlocks(a, y)
    ensures SameHome(a, x, y)
  {
    forall n | 0 <= n < |x| && a.Home(|x|, n) ensures x[n] == y[n] {
      assert n in HomeBlocks(a, x) && n in HomeBlocks(a, y);
      assert HomeBlocks(a, x)[n] == HomeBlocks(a, y)[n];
    }
  }

  /** Disks with the same home blocks are the same file system, byte for byte. */
  lemma SameFileSystem(a: Area, l: Layout, inodestart: nat, n: nat, st: State, disk: seq<Block>)
    requires LaidOut(a, l, inodestart, n) && SameHome(a, st.blocks, disk) && OnDisk(l, inodestart, n, st)
    ensures var st' := FileSystem(disk, inodestart, n, st.owner);
            OnDisk(l, inodestart, n, st') && st'.inodes == st.inodes && SameBytes(st, st')
  {
    hide Inv, InodesOf, SameBytes, SameHolds;
    InodesSame(inodestart, n, st.blocks, disk);
    BelowBitmapKeeps(l, st, disk);
    assert FileSystem(disk, inodestart, n, st.owner) == st.(blocks := disk);
  }

  /** The log's event for a transaction: each logged block once, in some order, with its contents at the end. */
  ghost predicate Records(e: Event, t: Txn) {
    && AsSet(e.bl) == t.logged && Distinct(e.bl)
    && (forall i :: 0 <= i < |e.bl| ==> e.bl[i] < |t.after.blocks|)
    && e.vals == Values(t.after.blocks, e.bl)
  }

  /** The file system that a transaction leaves: all of it once the header has been written, else nothing of it. */
  ghost function Survivor(t: Txn, e: Event): State {
    if e.Commits? || e.k > |e.bl| then t.after else t.before
  }

  /** The log has room for the transaction, as log_write makes sure. */
  predicate Fits(a: Area, t: Txn) {
    |t.logged| < a.size && |t.logged| <= LOGSIZE
  }

  lemma RecordsAllowed(a: Area, l: Layout, inodestart: nat, n: nat, disk: Image, t: Txn, e: Event)
    requires LaidOut(a, l, inodestart, n) && Ordered(l, inodestart, n, t) && Fits(a, t) && Records(e, t) && |disk| == |t.after.blocks|
    ensures Allowed(a, |disk|, e)
  {
    hide Inv;
    Transactions.DistinctCard(e.bl);
    forall i | 0 <= i < |e.bl| ensures a.Home(|disk|, e.bl[i]) {
      assert e.bl[i] in AsSet(e.bl);
    }
  }

  /** What the log makes of the home blocks is what the transaction wanted. */
  lemma PatchedHome(a: Area, inodestart: nat, disk: Image, t: Txn, e: Event)
    requires SameHome(a, t.before.blocks, disk) && Logging(inodestart, t.before.blocks, t.after.blocks, t.logged) && Records(e, t)
    ensures Patched(HomeBlocks(a, disk), e.bl, e.vals) == HomeBlocks(a, t.after.blocks)
  {
    forall b: nat | b < |disk| && a.Home(|disk|, b)
      ensures t.after.blocks[b] == if b in e.bl then e.vals[IndexOf(e.bl, b)] else disk[b]
    {
      assert b in e.bl <==> b in t.logged;
    }
  }

  /** One transaction, committed or crashed after any k of its writes and rebooted any number of times: the disk holds
      the file system from before the transaction if the header had not been written, and the one from after it otherwise. */
  lemma TransactionIsAtomic(a: Area, l: Layout, inodestart: nat, n: nat, disk: Image, t: Txn, e: Event)
    requires LaidOut(a, l, inodestart, n) && Clean(a, disk) && SameHome(a, t.before.blocks, disk)
    requires Ordered(l, inodestart, n, t) && Fits(a, t) && Records(e, t)
    ensures Allowed(a, |disk|, e) && SameHome(a, Survivor(t, e).blocks, Step(a, disk, e))
    ensures OnDisk(l, inodestart, n, Survivor(t, e))
  {
    hide Step, HomeBlocks, Patched, Inv, InodesOf;
    RecordsAllowed(a, l, inodestart, n, disk, t, e);
    var r := Step(a, disk, e);
    CleanDurable(a, disk);
    CleanDurable(a, r);
    PatchedHome(a, inodestart, disk, t, e);
    if e.Commits? || e.k > |e.bl| {
      HomeAgrees(a, t.after.blocks, r);
    } else {
      HomeAgrees(a, disk, r);
    }
  }

  // ---- runs ----

  /** The file system after the first m transactions of a run that started from st. */
  ghost function SurvivorOf(ts: seq<Txn>, es: seq<Event>, st: State, m: nat): State
    requires m <= |ts| == |es|
  {
    if m == 0 then st else Survivor(ts[m - 1], es[m - 1])
  }

  /** Transaction m starts from what the crashes and recoveries before it left. */
  ghost predicate Resumes(ts: seq<Txn>, es: seq<Event>, st: State, m: nat)
    requires m < |ts| == |es|
  {
    Records(es[m], ts[m]) && ts[m].before == SurvivorOf(ts, es, st, m)
  }

  ghost predicate RunOf(ts: seq<Txn>, es: seq<Event>, st: State) {
    |ts| == |es| && forall m: nat :: m < |ts| ==> Resumes(ts, es, st, m)
  }

  /** Transactions that the log can hold, each of one operation or of a group. */
  ghost predicate AllFit(a: Area, l: Layout, inodestart: nat, n: nat, ts: seq<Txn>) {
    forall t :: 0 <= t < |ts| ==> Ordered(l, inodestart, n, ts[t]) && Fits(a, ts[t])
  }

  /** Every run: whatever crashed and however often, the disk holds a file system in order, the one that the last
      transaction left. */
  lemma {:induction false} RunKeepsFileSystem(a: Area, l: Layout, inodestart: nat, n: nat, disk: Image, st: State,
                                              ts: seq<Txn>, es: seq<Event>)
    requires LaidOut(a, l, inodestart, n) && Clean(a, disk) && SameHome(a, st.blocks, disk) && OnDisk(l, inodestart, n, st)
    requires RunOf(ts, es, st) && AllFit(a, l, inodestart, n, ts)
    ensures AllAllowed(a, |disk|, es)
    ensures SameHome(a, SurvivorOf(ts, es, st, |ts|).blocks, Run(a, disk, es))
    ensures OnDisk(l, inodestart, n, SurvivorOf(ts, es, st, |ts|))
    decreases |ts|
  {
    hide Step, OnDisk, Records, SameHome, Ordered;
    if ts != [] {
      var m := |ts| - 1;
      assert Resumes(ts, es, st, m);
      forall k: nat | k < m ensures Resumes(ts[..m], es[..m], st, k) {
        assert Resumes(ts, es, st, k);
      }
      RunKeepsFileSystem(a, l, inodestart, n, disk, st, ts[..m], es[..m]);
      assert SurvivorOf(ts[..m], es[..m], st, m) == ts[m].before;
      TransactionIsAtomic(a, l, inodestart, n, Run(a, disk, es[..m]), ts[m], es[m]);
    }
  }

  // ---- group commit ----

  /** Any number of operations that one commit takes together: after a crash anywhere in it and any reboots the disk
      holds the file system from before them all or the one from after them all. */
  lemma GroupIsAtomic(a: Area, l: Layout, inodestart: nat, n: nat, disk: Image, ts: seq<Txn>, st: State, e: Event)
    requires LaidOut(a, l, inodestart, n) && Clean(a, disk) && SameHome(a, st.blocks, disk) && OnDisk(l, inodestart, n, st)
    requires Chained(ts, st) && forall t :: 0 <= t < |ts| ==> Ordered(l, inodestart, n, ts[t])
    requires Fits(a, Group(ts, st)) && Records(e, Group(ts, st))
    ensures Allowed(a, |disk|, e)
    ensures var st' := if e.Commits? || e.k > |e.bl| then StateAfter(ts, st, |ts|) else st;
            var fs := FileSystem(Step(a, disk, e), inodestart, n, st'.owner);
            OnDisk(l, inodestart, n, fs) && fs.inodes == st'.inodes && SameBytes(st', fs)
  {
    hide OnDisk, Records, SameHome, Step, Ordered, SameBytes;
    GroupOrdered(l, inodestart, n, ts, st);
    TransactionIsAtomic(a, l, inodestart, n, disk, Group(ts, st), e);
    SameFileSystem(a, l, inodestart, n, Survivor(Group(ts, st), e), Step(a, disk, e));
  }

  // ---- filewrite ----

  /** The first m transactions have committed and the next one crashed after k writes. */
  ghost predicate CrashIn(ts: seq<Txn>, es: seq<Event>, m: nat) {
    && m < |ts| && |es| == m + 1 && es[m].Crashes? && (forall k :: 0 <= k < m ==> es[k].Commits?)
    && forall k :: 0 <= k <= m ==> Records(es[k], ts[k])
  }

  /** The transactions of the write that survive: those before the crash, and the crashed one if its header is written. */
  ghost function Surviving(es: seq<Event>, m: nat): nat
    requires m < |es| && es[m].Crashes?
  {
    if es[m].k > |es[m].bl| then m + 1 else m
  }

  lemma CrashIsRun(ts: seq<Txn>, es: seq<Event>, st: State, i: nat, c: seq<byte>, off: nat, src: seq<byte>, m: nat)
    requires off <= |c| && WriteHistory(ts, st, i, c, off, src) && CrashIn(ts, es, m)
    ensures RunOf(ts[..m + 1], es, st)
    ensures SurvivorOf(ts[..m + 1], es, st, m + 1) == StateAfter(ts, st, Surviving(es, m))
  {
    hide Records, Wrote;
    var us := ts[..m + 1];
    forall k: nat | k < |us| ensures Resumes(us, es, st, k) {
      assert StartsThere(ts, st, k);
    }
    assert StartsThere(ts, st, m);
  }

  /** After the run the disk holds a file system in order, file i holds its old contents with the first j bytes of src
      laid over them, for a chunk boundary j, and every other file is as it was before the write. */
  ghost predicate Recovered(a: Area, l: Layout, inodestart: nat, n: nat, disk: Image, st: State, ts: seq<Txn>, es: seq<Event>,
                            i: nat, c: seq<byte>, off: nat, src: seq<byte>, end: nat)
    requires off <= |c| && end <= |ts| && Clean(a, disk)
  {
    && AllAllowed(a, |disk|, es)
    && var fs := FileSystem(Run(a, disk, es), inodestart, n, StateAfter(ts, st, end).owner);
       && OnDisk(l, inodestart, n, fs) && OthersKept(st, fs, i)
       && HasContents(fs, i, Overlay(c, off, src[..ChunkEnd(|src|, end)]))
  }

  /** FILEWRITE AND CRASHES. Cut the write anywhere and crash as many recoveries as you like. */
  lemma FilewriteCrash(a: Area, l: Layout, inodestart: nat, n: nat, disk: Image, st: State, ts: seq<Txn>, es: seq<Event>,
                       i: nat, c: seq<byte>, off: nat, src: seq<byte>, m: nat)
    requires LaidOut(a, l, inodestart, n) && Clean(a, disk) && SameHome(a, st.blocks, disk) && OnDisk(l, inodestart, n, st)
    requires HasContents(st, i, c) && off <= |c|
    requires WriteHistory(ts, st, i, c, off, src) && AllProper(l, inodestart, n, ts) && CrashIn(ts, es, m)
    ensures Recovered(a, l, inodestart, n, disk, st, ts, es, i, c, off, src, Surviving(es, m))
  {
    hide OnDisk, Records, SameHome, Run, WriteHistory, Contents, SameBytes, OthersKept, AllProper, ChunkEnd, HasContents;
    var end := Surviving(es, m);
    CrashIsRun(ts, es, st, i, c, off, src, m);
    ProperPrefix(a, l, inodestart, n, ts, m + 1);
    RunKeepsFileSystem(a, l, inodestart, n, disk, st, ts[..m + 1], es);
    var last := StateAfter(ts, st, end);
    HistoryState(ts, st, i, c, off, src, end);
    SameFileSystem(a, l, inodestart, n, last, Run(a, disk, es));
    SameFiles(st, last, FileSystem(Run(a, disk, es), inodestart, n, last.owner), i, Overlay(c, off, src[..ChunkEnd(|src|, end)]));
  }

  lemma ProperPrefix(a: Area, l: Layout, inodestart: nat, n: nat, ts: seq<Txn>, m: nat)
    requires LaidOut(a, l, inodestart, n) && AllProper(l, inodestart, n, ts) && m <= |ts|
    ensures AllFit(a, l, inodestart, n, ts[..m])
  {
    hide Ordered;
  }

  lemma SameFiles(st: State, st1: State, st2: State, i: nat, c: seq<byte>)
    requires OthersKept(st, st1, i) && SameBytes(st1, st2) && st2.inodes == st1.inodes && HasContents(st1, i, c)
    ensures OthersKept(st, st2, i) && HasContents(st2, i, c)
  {
    hide FileByte;
    SameBytesContents(st1, st2, i);
    assert OthersKept(st1, st2, i);
    OthersKeptTrans(st, st1, st2, i);
  }

  /** filewrite on a file without holes, over a log that is clean: whatever the crash and whichever the reboots. */
  method CrashableFilewrite(fs: Files.Fs, ghost a: Area, ghost disk: Image, i: nat, src: seq<byte>, off: nat)
    returns (r: Outcome, done: nat)
    requires fs.Valid() && LaidOut(a, fs.l, fs.inodestart, fs.ninodes) && fs.Disk() == fs.inodes
    requires Clean(a, disk) && SameHome(a, fs.blocks, disk)
    requires i < |fs.inodes| && off <= fs.inodes[i].size <= MAXBYTES && |src| < 0x8000_0000 && NoHoles(fs.St(), i)
    modifies fs
    ensures old(fs.txns) <= fs.txns && done == ChunkEnd(|src|, |fs.txns| - |old(fs.txns)|)
    ensures off + |src| <= MAXBYTES && |old(Holes(fs.St(), i, Slots(off, off + |src|)))| <= old(fs.Free()) ==> r == Ret(|src|)
    ensures r != Panic && r != Ret(-1) ==> done == |src|
    ensures var ts := fs.txns[|old(fs.txns)|..];
            && AllProper(fs.l, fs.inodestart, fs.ninodes, ts) && Chained(ts, old(fs.St()))
            && (|ts| > 0 ==> ChunkEnd(|src|, |ts| - 1) < done)
    ensures var ts := fs.txns[|old(fs.txns)|..];
            forall es, m :: CrashIn(ts, es, m) ==>
              Recovered(a, fs.l, fs.inodestart, fs.ninodes, disk, old(fs.St()), ts, es, i, old(Contents(fs.St(), i)), off, src,
                        Surviving(es, m))
  {
    hide Inv, Recovered, Records, WriteHistory, AllProper, SameHome, Clean, LaidOut, OthersKept, InodesOf, Logging, NoHoles, Contents, Holes,
      Slots, FreeBlocks;
    ghost var st := fs.St();
    InvShape(fs.l, st);
    ghost var c := Contents(st, i);
    r, done := fs.Filewrite(i, src, off);
    ghost var ts := fs.txns[|old(fs.txns)|..];
    HistoryChained(ts, st, i, c, off, src);
    forall es, m | CrashIn(ts, es, m)
      ensures Recovered(a, fs.l, fs.inodestart, fs.ninodes, disk, st, ts, es, i, c, off, src, Surviving(es, m))
    {
      FilewriteCrash(a, fs.l, fs.inodestart, fs.ninodes, disk, st, ts, es, i, c, off, src, m);
    }
  }

  // ---- one such run ----

  /** A set of blocks below n, in ascending order. */
  function Listing(s: set<nat>, n: nat): seq<uint32>
    requires n <= 0x1_0000_0000
  {
    if n == 0 then [] else Listing(s, n - 1) + if n - 1 in s then [n - 1] else []
  }

  lemma {:induction false} ListingLists(s: set<nat>, n: nat)
    requires n <= 0x1_0000_0000
    ensures forall i :: 0 <= i < |Listing(s, n)| ==> Listing(s, n)[i] < n
    ensures Distinct(Listing(s, n)) && forall b :: b in AsSet(Listing(s, n)) <==> b in s && b < n
  {
    if n > 0 {
      ListingLists(s, n - 1);
      var front, all := Listing(s, n - 1), Listing(s, n);
      assert forall b :: b in all <==> b in front || (b == n - 1 && n - 1 in s);
    }
  }

  /** The log's event for a transaction cut after k writes. */
  ghost function CrashEvent(t: Txn, k: nat, cuts: seq<nat>): Event
    requires |t.after.blocks| < 0x1_0000_0000
  {
    ListingLists(t.logged, |t.after.blocks|);
    var bl := Listing(t.logged, |t.after.blocks|);
    Crashes(bl, Values(t.after.blocks, bl), k, cuts)
  }

  lemma CrashRecords(inodestart: nat, t: Txn, k: nat, cuts: seq<nat>)
    requires Logging(inodestart, t.before.blocks, t.after.blocks, t.logged) && |t.after.blocks| < 0x1_0000_0000
    ensures Records(CrashEvent(t, k, cuts), t)
  {
    ListingLists(t.logged, |t.after.blocks|);
    assert AsSet(Listing(t.logged, |t.after.blocks|)) == t.logged;
  }

  lemma HistoryChained(ts: seq<Txn>, st: State, i: nat, c: seq<byte>, off: nat, src: seq<byte>)
    requires off <= |c| && WriteHistory(ts, st, i, c, off, src)
    ensures Chained(ts, st)
  {
    hide Wrote;
  }

  lemma OnlyTransaction(l: Layout, inodestart: nat, n: nat, ts: seq<Txn>, st: State, len: nat, k: nat, cuts: seq<nat>)
    requires Chained(ts, st) && AllProper(l, inodestart, n, ts) && 0 < len <= BSIZE && len == ChunkEnd(len, |ts|)
    requires |ts| > 0 ==> ChunkEnd(len, |ts| - 1) < len
    ensures |ts| == 1 && ts[0].before == st && |ts[0].after.blocks| < 0x1_0000_0000
    ensures var es := [CrashEvent(ts[0], k, cuts)];
            CrashIn(ts, es, 0) && Surviving(es, 0) == if k > |ts[0].logged| then 1 else 0
  {
    assert StartsThere(ts, st, 0);
    assert Proper(l, inodestart, n, ts[0]);
    CrashRecords(inodestart, ts[0], k, cuts);
    Transactions.DistinctCard(CrashEvent(ts[0], k, cuts).bl);
  }

  /** The kernel booted from an image with a root directory and one empty file. */
  method Booted(sb: Block) returns (fs: Files.Fs)
    ensures fresh(fs) && fs.Valid() && fs.Disk() == fs.inodes && fs.outstanding == 0 && fs.txns == [] && fs.Free() > 0
    ensures fs.l == Layout(Mkfs.FSSIZE, Mkfs.BMAPSTART, Mkfs.NMETA) && fs.inodestart == Mkfs.INODESTART && fs.ninodes == Mkfs.NINODES
    ensures fs.inodes[2] == Mkfs.NewInode(2) && NoHoles(fs.St(), 2)
    ensures Clean(Area(Mkfs.LOGSTART, Mkfs.NLOG), fs.blocks)
  {
    hide Inv, InodesOf, Mkfs.BlankFrom, Mkfs.Used, FreeBlocks;
    var l := Layout(Mkfs.FSSIZE, Mkfs.BMAPSTART, Mkfs.NMETA);
    Mkfs.SuperBlock(seq(Mkfs.FSSIZE, _ => Zeroes()));
    var img := new Mkfs.Image(l, Mkfs.INODESTART, Mkfs.NINODES, sb);
    var root := img.Ialloc(1);
    var file := img.Ialloc(2);
    var ok := img.Balloc();
    RootHole.NextIsFree(l, img.blocks, img.freeblock);
    WordOfZero(0);
    fs := img.Boot();
  }

  /** From mkfs's image to a crash: a file is created, the kernel boots, the first write to the file is cut after any k
      writes of its commit and any reboots; afterwards the file is empty or has all of it. */
  method WriteAndCrash(sb: Block, src: seq<byte>, ghost k: nat, ghost cuts: seq<nat>) returns (fs: Files.Fs, ghost es: seq<Event>)
    requires 0 < |src| <= BSIZE
    ensures fresh(fs) && |fs.txns| == 1 && |fs.txns[0].after.blocks| < 0x1_0000_0000
    ensures es == [CrashEvent(fs.txns[0], k, cuts)] && CrashIn(fs.txns, es, 0)
    ensures var a := Area(Mkfs.LOGSTART, Mkfs.NLOG);
            && Clean(a, fs.txns[0].before.blocks)
            && Recovered(a, fs.l, fs.inodestart, fs.ninodes, fs.txns[0].before.blocks, fs.txns[0].before, fs.txns, es, 2, [], 0, src,
                         if k > |fs.txns[0].logged| then 1 else 0)
  {
    hide Inv, Recovered, Records, WriteHistory, AllProper, SameHome, LaidOut, OthersKept, InodesOf, Logging, Contents, Holes,
      Slots, FreeBlocks, SameBytes;
    fs := Booted(sb);
    ghost var a, disk, st := Area(Mkfs.LOGSTART, Mkfs.NLOG), fs.blocks, fs.St();
    MkfsLaidOut();
    assert SameHome(a, disk, disk) by { Transactions.SameHomeRefl(a, disk); }
    RootHole.OneSlot(0, |src|);
    RootHole.HolesAtMost(st, 2, 0);
    RootHole.EmptyContents(st, 2);
    var r, done := CrashableFilewrite(fs, a, disk, 2, src, 0);
    OnlyTransaction(fs.l, fs.inodestart, fs.ninodes, fs.txns, st, |src|, k, cuts);
    es := [CrashEvent(fs.txns[0], k, cuts)];
  }
}
