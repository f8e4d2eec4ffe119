/** The log object of log.c: reservations, absorbing log writes, group commit and boot. Each critical section
    under log.lock is one method, and a process that would sleep gets the answer "not admitted", so an
    interleaving of processes is a sequence of calls. */
module Transactions {
  import opened Blocks
  import opened BufferCache
  import opened RedoLog
  import opened LogSystem

  /** An FS system call between its begin_op and its end_op. */
  datatype Op = Op(id: int)

  /** The blocks active operations may still append: MAXOPBLOCKS each, less what they have appended. */
  ghost function Unused(used: map<Op, nat>): int
    decreases |used|
  {
    if |used| == 0 then 0 else
      var op :| op in used;
      MAXOPBLOCKS - used[op] + Unused(used - {op})
  }

  lemma {:induction false} UnusedSplit(used: map<Op, nat>, op: Op)
    requires op in used
    ensures Unused(used) == MAXOPBLOCKS - used[op] + Unused(used - {op})
    decreases |used|
  {
    var p :| p in used && Unused(used) == MAXOPBLOCKS - used[p] + Unused(used - {p});
    if p != op {
      UnusedSplit(used - {p}, op);
      UnusedSplit(used - {op}, p);
      assert used - {p} - {op} == used - {op} - {p};
    }
  }

  lemma UnusedUpdate(used: map<Op, nat>, op: Op, n: nat)
    ensures Unused(used[op := n]) == MAXOPBLOCKS - n + Unused(used - {op})
  {
    UnusedSplit(used[op := n], op);
    assert used[op := n] - {op} == used - {op};
  }

  lemma {:induction false} UnusedIsNatural(used: map<Op, nat>)
    requires forall op :: op in used ==> used[op] <= MAXOPBLOCKS
    ensures Unused(used) >= 0
    decreases |used|
  {
    if |used| != 0 {
      var op :| op in used;
      UnusedSplit(used, op);
      UnusedIsNatural(used - {op});
    }
  }

  /** The reservation invariant: what is logged plus what may still be appended fits the log. */
  ghost predicate Reserved(n: nat, used: map<Op, nat>) {
    && (forall op :: op in used ==> used[op] <= MAXOPBLOCKS)
    && n + Unused(used) <= LOGSIZE
  }

  /** An operation that has not used up its reservation always finds room in the log. */
  lemma ReservationLeavesRoom(n: nat, used: map<Op, nat>, op: Op)
    requires Reserved(n, used) && op in used && used[op] < MAXOPBLOCKS
    ensures n < LOGSIZE
  {
    UnusedSplit(used, op);
    UnusedIsNatural(used - {op});
  }

  /** begin_op's test keeps the invariant although it charges every active operation in full. */
  lemma AdmissionKeepsReservation(n: nat, used: map<Op, nat>, op: Op)
    requires Reserved(n, used) && op !in used && n + (|used| + 1) * MAXOPBLOCKS <= LOGSIZE
    ensures Reserved(n, used[op := 0])
  {
    hide Unused;
    UnusedUpdate(used, op, 0);
    assert used - {op} == used;
    UnusedAtMost(used);
    assert (|used| + 1) * MAXOPBLOCKS == |used| * MAXOPBLOCKS + MAXOPBLOCKS;
  }

  lemma {:induction false} UnusedAtMost(used: map<Op, nat>)
    ensures Unused(used) <= |used| * MAXOPBLOCKS
    decreases |used|
  {
    if |used| != 0 {
      var op :| op in used;
      UnusedSplit(used, op);
      UnusedAtMost(used - {op});
    }
  }

  /** log_write's own test. */
  predicate TooBig(n: nat, size: nat) {
    n >= LOGSIZE || n >= size - 1
  }

  /** For a reserved append the test refuses exactly when the log area is smaller than the reservations assume. */
  lemma ReservedAppendRefused(n: nat, size: nat, used: map<Op, nat>, op: Op)
    requires Reserved(n, used) && op in used && used[op] < MAXOPBLOCKS
    ensures TooBig(n, size) <==> n >= size - 1
    ensures LOGSIZE < size ==> !TooBig(n, size)
  {
    ReservationLeavesRoom(n, used, op);
  }

  /** An append takes one block of its operation's reservation. */
  lemma AppendKeepsReservation(n: nat, used: map<Op, nat>, op: Op)
    requires Reserved(n, used) && op in used && used[op] < MAXOPBLOCKS
    ensures Reserved(n + 1, used[op := used[op] + 1])
  {
    hide Unused;
    UnusedUpdate(used, op, used[op] + 1);
    UnusedSplit(used, op);
  }

  lemma AppendKeepsList(a: Area, disk: nat, lh: seq<uint32>, blockno: uint32)
    requires Loggable(a, disk, lh) && a.Home(disk, blockno) && blockno !in lh && |lh| < LOGSIZE && |lh| < a.size - 1
    ensures Loggable(a, disk, lh + [blockno]) && AsSet(lh + [blockno]) == AsSet(lh) + {blockno}
  {
  }

  lemma AbsorbKeepsList(lh: seq<uint32>, i: nat)
    requires i < |lh|
    ensures AsSet(lh) + {lh[i]} == AsSet(lh)
  {
  }

  /** log_write's search for a block to absorb into. */
  method Find(lh: seq<uint32>, blockno: nat) returns (i: nat)
    ensures i <= |lh| && (i < |lh| ==> lh[i] == blockno)
    ensures i == |lh| <==> blockno !in lh
  {
    i := 0;
    while i < |lh| && lh[i] != blockno
      invariant 0 <= i <= |lh|
      invariant forall j :: 0 <= j < i ==> lh[j] != blockno
    {
      i := i + 1;
    }
  }

  // ---- how many buffers a transaction pins ----

  lemma {:induction false} DistinctCard(s: seq<nat>)
    requires Distinct(s)
    ensures |AsSet(s)| == |s|
  {
    if s == [] {
      assert AsSet(s) == {};
    } else {
      var front, last := s[..|s| - 1], s[|s| - 1];
      DistinctCard(front);
      assert s == front + [last];
      assert last !in front;
      assert AsSet(s) == AsSet(front) + {last};
    }
  }

  lemma SubsetCard(x: set<nat>, y: set<nat>)
    requires x <= y
    ensures |x| <= |y| && (|x| == |y| ==> x == y)
  {
    assert y == x + (y - x);
  }

  /** Pinned are exactly the listed blocks: a buffer is free exactly when these and the readers' buffers are fewer than
      the cache has. */
  lemma FreeBufferIffRoom(buf: seq<Buf>, slot: map<Key, nat>, blocks: seq<Block>, lh: seq<uint32>, others: set<nat>)
    requires Consistent(buf, slot, blocks) && Dirty(buf, slot, |blocks|) == AsSet(lh) && Distinct(lh)
    requires forall i :: i in others ==> i < NBUF && !buf[i].dirty
    ensures HasFree(buf, others) <==> |lh| + |others| < NBUF
  {
    var pinned := set i: nat | 0 <= i < NBUF && buf[i].dirty;
    PinnedCard(buf, slot, blocks, lh);
    var all := Buffers();
    BuffersCard();
    assert |pinned + others| == |pinned| + |others|;
    SubsetCard(pinned + others, all);
    if HasFree(buf, others) {
      var i :| 0 <= i < NBUF && i !in others && !buf[i].dirty;
      assert i in all && i !in pinned + others;
    } else {
      assert pinned + others == all;
    }
  }

  ghost function Buffers(): set<nat> {
    AsSet(seq(NBUF, i => i))
  }

  lemma BuffersCard()
    ensures |Buffers()| == NBUF && forall i :: i in Buffers() <==> 0 <= i < NBUF
  {
    var all: seq<nat> := seq(NBUF, i => i);
    DistinctCard(all);
    forall i | 0 <= i < NBUF ensures i in AsSet(all) {
      assert all[i] == i;
    }
  }

  lemma PinnedCard(buf: seq<Buf>, slot: map<Key, nat>, blocks: seq<Block>, lh: seq<uint32>)
    requires Consistent(buf, slot, blocks) && Dirty(buf, slot, |blocks|) == AsSet(lh) && Distinct(lh)
    ensures |set i: nat | 0 <= i < NBUF && buf[i].dirty| == |lh|
  {
    var home := seq(|lh|, k requires 0 <= k < |lh| => assert lh[k] in AsSet(lh); slot[(ROOTDEV, lh[k])]);
    var pinned := set i: nat | 0 <= i < NBUF && buf[i].dirty;
    forall j, k | 0 <= j < k < |home| ensures home[j] != home[k] {
      assert lh[j] in AsSet(lh) && lh[k] in AsSet(lh) && lh[j] != lh[k];
    }
    DistinctCard(home);
    forall i | i in pinned ensures i in home {
      assert Coherent(buf[i], blocks);
      assert buf[i].blockno in AsSet(lh);
      var k :| 0 <= k < |lh| && lh[k] == buf[i].blockno;
      assert home[k] == i;
    }
    forall i | i in home ensures i in pinned {
      var k :| 0 <= k < |home| && home[k] == i;
      assert lh[k] in AsSet(lh);
    }
    assert AsSet(home) == pinned;
  }

  lemma FreeBuffer(bc: Bcache, lh: seq<uint32>, others: set<nat>)
    requires bc.Valid() && bc.Pinned() == AsSet(lh) && Distinct(lh)
    requires forall i :: i in others ==> i < NBUF && i < |bc.buf| && !bc.buf[i].dirty
    ensures HasFree(bc.buf, others) <==> |lh| + |others| < NBUF
  {
    FreeBufferIffRoom(bc.buf, bc.slot, bc.disk.blocks, lh, others);
  }

  /** Overlaying the listed blocks' cached values on the disk gives the cached state. */
  lemma PatchedIsView(a: Area, img: Image, view: Image, lh: seq<uint32>)
    requires |view| == |img| && forall i :: 0 <= i < |lh| ==> lh[i] < |view|
    requires forall n :: 0 <= n < |img| && n !in AsSet(lh) ==> view[n] == img[n]
    ensures Patched(HomeBlocks(a, img), lh, Values(view, lh)) == HomeBlocks(a, view)
  {
  }

  /** At every crash point of a commit the disk recovers to what it held before, or, once the header is
      written, to everything the cache held. */
  ghost predicate AtomicCommit(a: Area, img: Image, view: Image, n: nat, ws: seq<Write>) {
    forall k :: 0 <= k <= |ws| ==>
      WellFormed(a, Apply(img, ws[..k])) && Durable(a, Apply(img, ws[..k])) == if k <= n then HomeBlocks(a, img) else HomeBlocks(a, view)
  }

  lemma CommitSurvivesCrashes(a: Area, img: Image, view: Image, lh: seq<uint32>)
    requires Clean(a, img) && Loggable(a, |img|, lh) && |view| == |img|
    requires forall n :: 0 <= n < |img| && n !in AsSet(lh) ==> view[n] == img[n]
    ensures var ws := CommitWrites(a, img[a.start], lh, Values(view, lh));
            && AtomicCommit(a, img, view, |lh|, ws)
            && Clean(a, Apply(img, ws)) && HomeBlocks(a, Apply(img, ws)) == HomeBlocks(a, view)
            && HomeBlocks(a, view) == Patched(HomeBlocks(a, img), lh, Values(view, lh))
  {
    hide Apply, CommitWrites, Patched, HomeBlocks, Durable;
    var vals := Values(view, lh);
    var ws := CommitWrites(a, img[a.start], lh, vals);
    PatchedIsView(a, img, view, lh);
    CleanDurable(a, img);
    forall k | 0 <= k <= |ws|
      ensures WellFormed(a, Apply(img, ws[..k]))
      ensures Durable(a, Apply(img, ws[..k])) == if k <= |lh| then HomeBlocks(a, img) else HomeBlocks(a, view)
    {
      CommitIsAtomic(a, img, lh, vals, k);
    }
    CommitIsAtomic(a, img, lh, vals, |ws|);
    assert ws[..|ws|] == ws;
    CommitLength(a, img[a.start], lh, vals);
    CleanDurable(a, Apply(img, ws));
  }

  lemma SameHomeRefl(a: Area, view: Image)
    ensures SameHome(a, view, view)
  {
  }

  lemma CommitLength(a: Area, h: Block, bl: seq<uint32>, vals: seq<Block>)
    requires |bl| == |vals| <= LOGSIZE
    ensures |CommitWrites(a, h, bl, vals)| == 2 * |bl| + 2
  {
  }

  lemma NoWritesIsAtomic(a: Area, img: Image, view: Image, lh: seq<uint32>)
    requires Clean(a, img) && |view| == |img|
    requires forall n :: 0 <= n < |img| && n !in AsSet(lh) ==> view[n] == img[n]
    ensures AtomicCommit(a, img, view, |lh|, []) && (lh == [] ==> HomeBlocks(a, img) == HomeBlocks(a, view))
  {
    CleanDurable(a, img);
  }

  datatype Outcome = Logged(appended: bool) | PanicTooBig | PanicOutside

  lemma EffectsMore(m: map<nat, Block>, run: seq<Event>, e: Event)
    requires (forall i :: 0 <= i < |run| ==> |run[i].vals| == |run[i].bl|) && e.Commits? && |e.vals| == |e.bl|
    ensures Effects(m, run + [e]) == Patched(Effects(m, run), e.bl, e.vals)
  {
    assert (run + [e])[..|run|] == run;
  }

  class Log {
    const bc: Bcache
    const area: Area
    var outstanding: nat
    var committing: bool
    var lh: seq<uint32>
    ghost var used: map<Op, nat>          // active operations and the blocks each has appended
    ghost const start: map<nat, Block>    // the home blocks at boot, once recovered
    ghost var run: seq<Event>             // the commits since

    /** The list has no duplicates and names exactly the pinned buffers, the disk's own log is empty, and the home
        blocks are those of the boot with every commit since applied in order. */
    ghost predicate Valid()
      reads this, bc, bc.disk
    {
      && bc.Valid()
      && Clean(area, bc.disk.blocks)
      && Loggable(area, |bc.disk.blocks|, lh)
      && bc.Pinned() == AsSet(lh)
      && outstanding == |used|
      && (committing ==> used == map[])
      && AllAllowed(area, |bc.disk.blocks|, run)
      && HomeBlocks(area, bc.disk.blocks) == Effects(start, run)
    }

    /** No operation has appended more than it reserved. */
    ghost predicate Within()
      reads this`lh, this`used
    {
      Reserved(|lh|, used)
    }

    /** initlog: recover, then start with an empty transaction. */
    constructor (d: Disk, a: Area)
      requires WellFormed(a, d.blocks)
      modifies d
      ensures Valid() && Within() && bc.disk == d && area == a && lh == [] && used == map[] && !committing && run == []
      ensures InUse(bc.buf, {}, {}) && fresh(bc)
      ensures d.writes == old(d.writes) + RecoveryWrites(a, old(d.blocks)) && |d.blocks| == old(|d.blocks|)
      ensures start == HomeBlocks(a, d.blocks) == Durable(a, old(d.blocks))
    {
      var cache := new Bcache(d);
      bc, area := cache, a;
      outstanding, committing, lh, used, run := 0, false, [], map[], [];
      start := Durable(a, d.blocks);
      new;
      assert !bc.buf[0].dirty && !bc.buf[1].dirty;
      var ok := Recover(bc, area);
    }

    /** One turn of begin_op's loop; not admitted means the caller sleeps on the log. */
    method BeginOp(op: Op) returns (admitted: bool)
      requires Valid() && op !in used
      modifies this`outstanding, this`used
      ensures Valid() && (old(Within()) ==> Within())
      ensures admitted <==> !committing && |lh| + (old(|used|) + 1) * MAXOPBLOCKS <= LOGSIZE
      ensures used == if admitted then old(used)[op := 0] else old(used)
    {
      hide Bcache.Valid, Bcache.Pinned, HomeBlocks, Effects;
      if committing {
        admitted := false;
      } else if |lh| + (outstanding + 1) * MAXOPBLOCKS > LOGSIZE {
        admitted := false;
      } else {
        if Within() {
          AdmissionKeepsReservation(|lh|, used, op);
        }
        outstanding := outstanding + 1;
        used := used[op := 0];
        admitted := true;
      }
    }

    /** end_op up to the release of log.lock; the last operation out commits. */
    method EndOp(op: Op) returns (doCommit: bool)
      requires Valid() && op in used
      modifies this`outstanding, this`committing, this`used
      ensures Valid() && (old(Within()) ==> Within())
      ensures !old(committing) && used == old(used) - {op}
      ensures doCommit == committing == (used == map[])
    {
      hide Bcache.Valid, Bcache.Pinned, HomeBlocks, Effects;
      UnusedSplit(used, op);
      used := used - {op};
      outstanding := outstanding - 1;
      doCommit := outstanding == 0;
      committing := doCommit;
      assert |used| == 0 ==> used == map[];
    }

    /** The tail of end_op after commit. */
    method EndCommit()
      requires Valid() && committing
      modifies this`committing
      ensures Valid() && !committing
    {
      committing := false;
    }

    /** log_write's list: the block is appended, or absorbed if it is there. */
    method Record(op: Op, blockno: uint32) returns (appended: bool)
      requires op in used && Loggable(area, |bc.disk.blocks|, lh) && area.Home(|bc.disk.blocks|, blockno)
      requires !TooBig(|lh|, area.size)
      modifies this`lh, this`used
      ensures appended == (blockno !in old(lh)) && lh == (if appended then old(lh) + [blockno] else old(lh))
      ensures used == (if appended then old(used)[op := old(used)[op] + 1] else old(used)) && |used| == |old(used)|
      ensures Loggable(area, |bc.disk.blocks|, lh) && AsSet(lh) == AsSet(old(lh)) + {blockno}
      ensures old(Within()) && (old(used)[op] < MAXOPBLOCKS || !appended) ==> Within()
    {
      hide Reserved, Loggable, AsSet;
      var i := Find(lh, blockno);
      appended := i == |lh|;
      if appended {
        if used[op] < MAXOPBLOCKS && Within() {
          AppendKeepsReservation(|lh|, used, op);
        }
        AppendKeepsList(area, |bc.disk.blocks|, lh, blockno);
        used := used[op := used[op] + 1];
        lh := lh + [blockno];
      } else {
        AbsorbKeepsList(lh, i);
      }
    }

    /** log_write by operation op for a buffer it holds. A block already in the list is absorbed. An append within its
        operation's reservation is refused only by a log area of at most LOGSIZE blocks. */
    method LogWrite(op: Op, b: nat) returns (r: Outcome)
      requires Valid() && (op in used || outstanding == 0)
      requires b < NBUF && bc.buf[b].locked && bc.buf[b].valid
      requires area.Home(|bc.disk.blocks|, bc.buf[b].blockno) && bc.buf[b].blockno < 0x1_0000_0000
      modifies this`lh, this`used, bc
      ensures Valid() && bc.Logical() == old(bc.Logical())
      ensures r == PanicTooBig <==> TooBig(old(|lh|), area.size)
      ensures r == PanicTooBig <==> old(|lh|) >= 30 || old(|lh|) + 1 >= area.size
      ensures r == PanicOutside <==> !TooBig(old(|lh|), area.size) && outstanding == 0
      ensures r.Logged? ==>
                && r.appended == (old(bc.buf)[b].blockno !in old(lh))
                && lh == (if r.appended then old(lh) + [old(bc.buf)[b].blockno] else old(lh))
                && used == (if r.appended then old(used)[op := old(used)[op] + 1] else old(used))
                && bc.buf == old(bc.buf)[b := old(bc.buf)[b].(dirty := true)]
      ensures !r.Logged? ==> lh == old(lh) && used == old(used) && bc.buf == old(bc.buf)
      ensures old(Within()) && (op in old(used) ==> old(used)[op] < MAXOPBLOCKS || old(bc.buf)[b].blockno in old(lh)) ==> Within()
      ensures old(Within()) && op in old(used) && old(used)[op] < MAXOPBLOCKS && LOGSIZE < area.size ==> r.Logged?
    {
      hide Bcache.Valid, Bcache.Logical, Bcache.Pinned, Reserved, Loggable, HomeBlocks, Effects, AllAllowed, Clean, AsSet;
      CacheSize(bc);
      if op in used && used[op] < MAXOPBLOCKS && Within() {
        ReservationLeavesRoom(|lh|, used, op);
      }
      if |lh| >= LOGSIZE || |lh| >= area.size - 1 {
        return PanicTooBig;
      }
      if outstanding < 1 {
        return PanicOutside;
      }
      var appended := Record(op, bc.buf[b].blockno);
      r := Logged(appended);
      bc.Pin(b);
    }

    /** commit, while other processes may be reading other blocks. It fails, before writing anything, exactly when
        the transaction and the readers take up every buffer ("bget: no buffers"): without readers, never over a log
        area of LOGSIZE blocks. */
    method Commit(ghost others: set<nat>) returns (ok: bool)
      requires Valid() && committing && InUse(bc.buf, {}, others)
      requires Readers(bc.buf, others, area, lh) && Unmodified(bc.buf, others, bc.disk.blocks)
      modifies this`lh, this`run, bc, bc.disk
      ensures ok <==> old(lh) == [] || |old(lh)| + |others| < NBUF
      ensures area.size <= LOGSIZE && others == {} ==> ok
      ensures ok ==> Valid() && lh == [] && InUse(bc.buf, {}, others) && LeftAlone(old(bc.buf), bc.buf, others)
      ensures ok ==> SameHome(area, old(bc.Logical()), bc.Logical())
      ensures ok ==> HomeBlocks(area, bc.disk.blocks) == HomeBlocks(area, old(bc.Logical()))
      ensures ok ==> run == if old(lh) == [] then old(run) else old(run) + [Commits(old(lh), Values(old(bc.Logical()), old(lh)))]
      ensures old(bc.disk.writes) <= bc.disk.writes
      ensures AtomicCommit(area, old(bc.disk.blocks), old(bc.Logical()), |old(lh)|, bc.disk.writes[|old(bc.disk.writes)|..])
    {
      hide Bcache.Valid, Bcache.Logical, Bcache.Pinned, Apply, CommitWrites, AtomicCommit, HomeBlocks, SameHome, HasFree, Effects;
      CacheSize(bc);
      FreeBuffer(bc, lh, others);
      UnpinnedReadsDisk(bc, others);
      ghost var img, view := bc.disk.blocks, bc.Logical();
      CommitSurvivesCrashes(area, img, view, lh);
      NoWritesIsAtomic(area, img, view, lh);
      assert SameHome(area, view, view) by { SameHomeRefl(area, view); }
      ghost var was := bc.disk.writes;
      assert was[|was|..] == [];
      ok := true;
      if |lh| > 0 {
        ok := CommitBlocks(bc, area, lh, others);
        if ok {
          assert bc.disk.writes[|was|..] == CommitWrites(area, img[area.start], lh, Values(view, lh));
          EffectsMore(start, run, Commits(lh, Values(view, lh)));
          run := run + [Commits(lh, Values(view, lh))];
          lh := [];
        } else {
          assert bc.disk.writes[|was|..] == [];
        }
      }
    }
  }

  // ---- the longest transactions ----

  /** How many of the first n appends fall to the k-th operation, ten to each. */
  function Tens(n: nat, k: nat): nat {
    if n <= 10 * k then 0 else if n >= 10 * k + 10 then 10 else n - 10 * k
  }

  ghost predicate Consecutive(lh: seq<uint32>, base: nat, n: nat) {
    |lh| == n && forall i :: 0 <= i < n ==> lh[i] == base + i
  }

  /** Three operations are active and have made the first n appends. */
  ghost predicate Shares(used: map<Op, nat>, n: nat) {
    && used.Keys == {Op(0), Op(1), Op(2)}
    && used[Op(0)] == Tens(n, 0) && used[Op(1)] == Tens(n, 1) && used[Op(2)] == Tens(n, 2)
  }

  method BeginThree(log: Log)
    requires log.Valid() && log.Within() && log.used == map[] && log.lh == [] && !log.committing
    modifies log`outstanding, log`used
    ensures log.Valid() && log.Within() && Shares(log.used, 0)
  {
    hide Log.Valid, Log.Within;
    var ok := log.BeginOp(Op(0));
    ok := log.BeginOp(Op(1));
    ok := log.BeginOp(Op(2));
  }

  method EndThree(log: Log, ghost n: nat)
    requires log.Valid() && Shares(log.used, n)
    modifies log`outstanding, log`used, log`committing
    ensures log.Valid() && log.committing
  {
    hide Log.Valid, Tens;
    var last := log.EndOp(Op(0));
    last := log.EndOp(Op(1));
    last := log.EndOp(Op(2));
    assert log.used.Keys == {};
  }

  /** bread, log_write and brelse of a block that is not in the list yet. */
  method AppendOne(log: Log, op: Op, x: uint32) returns (refused: bool)
    requires log.Valid() && log.Within() && op in log.used && log.used[op] < MAXOPBLOCKS && InUse(log.bc.buf, {}, {})
    requires |log.lh| < NBUF && x !in log.lh && log.area.Home(|log.bc.disk.blocks|, x)
    modifies log`lh, log`used, log.bc
    ensures log.Valid() && log.Within() && (refused <==> |old(log.lh)| >= log.area.size - 1)
    ensures !refused ==> log.lh == old(log.lh) + [x] && log.used == old(log.used)[op := old(log.used)[op] + 1] && InUse(log.bc.buf, {}, {})
  {
    hide Bcache.Valid, Bcache.Pinned, Bcache.Logical, HomeBlocks, Effects, Reserved, Clean, AllAllowed, AsSet, Unused,
      Loggable, Without, Bcache.Threaded, LeftAlone, Unpinned;
    ReservationLeavesRoom(|log.lh|, log.used, op);
    Positive(log.used, op);
    CacheSize(log.bc);
    LoggableDistinct(log.area, |log.bc.disk.blocks|, log.lh);
    FreeBuffer(log.bc, log.lh, {});
    ghost var none: set<nat> := {};
    assert none + none == none;
    var r := Open(log.bc, x, none, none);
    var b := r.value;
    assert {} + {b} == {b};
    CacheSize(log.bc);
    var done := log.LogWrite(op, b);
    refused := done == PanicTooBig;
    if !refused {
      log.bc.Brelse(b);
    }
  }

  lemma LoggableDistinct(a: Area, disk: nat, lh: seq<uint32>)
    requires Loggable(a, disk, lh)
    ensures Distinct(lh)
  {
  }

  lemma Positive(used: map<Op, nat>, op: Op)
    requires op in used
    ensures |used| > 0
  {
  }

  /** commit while a reader may hold block x. */
  method CommitBeside(log: Log, x: nat, reader: bool) returns (ok: bool)
    requires log.Valid() && log.committing && InUse(log.bc.buf, {}, {})
    requires x !in log.lh && log.area.Home(|log.bc.disk.blocks|, x)
    modifies log`lh, log`run, log.bc, log.bc.disk
    ensures ok <==> |old(log.lh)| + (if reader && |old(log.lh)| < NBUF then 1 else 0) < NBUF || old(log.lh) == []
  {
    hide Bcache.Valid, Bcache.Pinned, Bcache.Logical, HomeBlocks, Effects, Clean, AllAllowed, AsSet, AtomicCommit;
    ghost var others: set<nat> := {};
    CacheSize(log.bc);
    if reader && |log.lh| < NBUF {
      FreeBuffer(log.bc, log.lh, {});
      assert others + others == others;
      var r := Open(log.bc, x, others, others);
      ReaderOnly(log.bc, r.value, log.area, log.lh);
      others := {r.value};
    }
    ok := log.Commit(others);
  }

  /** A process that has read a block and holds it is a reader. */
  lemma ReaderOnly(bc: Bcache, b: nat, a: Area, lh: seq<uint32>)
    requires bc.Valid() && b < NBUF && InUse(bc.buf, {} + {b}, {}) && Settled(bc.buf[b], bc.disk.blocks)
    requires bc.buf[b].dirty <==> bc.buf[b].blockno in bc.Pinned()
    requires bc.Pinned() == AsSet(lh) && bc.buf[b].blockno !in lh && a.Home(|bc.disk.blocks|, bc.buf[b].blockno)
    ensures InUse(bc.buf, {}, {b}) && Readers(bc.buf, {b}, a, lh) && Unmodified(bc.buf, {b}, bc.disk.blocks)
  {
    assert {} + {b} == {b};
    assert bc.buf[b].blockno !in AsSet(lh);
  }

  /** Three operations that append up to ten blocks each, `want` in all, and then commit while a reader may hold one more
      buffer. The appends are refused exactly when the log area is too small for them, and the commit finds no buffer
      exactly when the blocks and the reader's are as many as the cache has. So over mkfs's log of LOGSIZE blocks the
      thirtieth append within its reservation is refused, and the commit of twenty-nine fails only for a reader; over a
      longer log the thirtieth append is made and then its commit fails. */
  method ThreeOperations(d: Disk, a: Area, want: nat, reader: bool) returns (refused: bool, ok: bool)
    requires WellFormed(a, d.blocks) && want <= LOGSIZE
    requires a.start + a.size + LOGSIZE < |d.blocks| < 0x1_0000_0000
    modifies d
    ensures refused <==> want >= a.size
    ensures !refused ==> (ok <==> want + (if reader && want < NBUF then 1 else 0) < NBUF || want == 0)
  {
    hide Log.Valid, Log.Within, HomeBlocks, Loggable, RecoveryWrites, Tens;
    var log := new Log(d, a);
    var base := a.start + a.size;
    BeginThree(log);
    var n := 0;
    refused, ok := false, false;
    while n < want
      invariant 0 <= n <= want && n < a.size
      invariant log.Valid() && log.Within() && log.bc.disk == d && log.area == a && |d.blocks| == old(|d.blocks|)
      invariant fresh(log) && fresh(log.bc)
      invariant Consecutive(log.lh, base, n) && InUse(log.bc.buf, {}, {}) && Shares(log.used, n)
    {
      TensNext(n);
      refused := AppendOne(log, Op(n / 10), base + n);
      if refused {
        return;
      }
      n := n + 1;
    }
    EndThree(log, n);
    ok := CommitBeside(log, base + want, reader);
  }

  lemma TensNext(n: nat)
    requires n < LOGSIZE
    ensures n / 10 <= 2 && Tens(n, n / 10) < MAXOPBLOCKS
    ensures forall k :: 0 <= k <= 2 ==> Tens(n + 1, k) == Tens(n, k) + if k == n / 10 then 1 else 0
  {
  }
}
