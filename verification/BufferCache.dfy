/** The buffer cache (bio.c) over a block disk (memide.c).

    The cache is an array of NBUF buffers threaded on a circular doubly linked list through
    `prev` and `next`; pointers to buffers are indices and the list head is index HEAD.
    A critical section under bcache.lock is one method. A process that would sleep in
    acquiresleep is one whose `Lock` is not enabled, so every interleaving of processes is some
    sequence of these calls. */
module BufferCache {
  import opened Blocks

  const NBUF: nat := 30
  const HEAD: nat := NBUF  // stands for &bcache.head
  const ROOTDEV: nat := 1

  /** memide.c: an array of blocks. `writes` is the history of single-block writes since boot. */
  class Disk {
    var blocks: seq<Block>
    ghost var writes: seq<Write>

    constructor (image: seq<Block>)
      ensures blocks == image && writes == []
    {
      blocks := image;
      writes := [];
    }

    method Store(blockno: nat, data: Block)
      requires blockno < |blocks|
      modifies this
      ensures blocks == old(blocks)[blockno := data]
      ensures writes == old(writes) + [Write(blockno, data)]
    {
      blocks := blocks[blockno := data];
      writes := writes + [Write(blockno, data)];
    }
  }

  datatype Buf = Buf(dev: nat, blockno: nat, refcnt: nat, valid: bool, dirty: bool, locked: bool, data: Block)

  const UNUSED := Buf(0, 0, 0, false, false, false, Zeroes())  // static storage is zeroed

  /** A buffer bget may recycle: unreferenced and not pinned by an uncommitted log write. */
  predicate Recyclable(b: Buf) {
    b.refcnt == 0 && !b.dirty
  }

  /** The recyclable buffer that comes last in list order. */
  ghost predicate LeastRecent(buf: seq<Buf>, ring: seq<nat>, b: nat) {
    && b < |buf| && Recyclable(buf[b])
    && exists k :: 0 <= k < |ring| && ring[k] == b
         && forall j :: k < j < |ring| && ring[j] < |buf| ==> !Recyclable(buf[ring[j]])
  }

  // ---- the circular list ----

  /** The k-th node of the list, counting from head.next; HEAD on either side. */
  function Node(ring: seq<nat>, k: int): nat {
    if 0 <= k < |ring| then ring[k] else HEAD
  }

  /** `prev` and `next` thread exactly the nodes of `ring`, in that order, around the head. */
  ghost predicate Linked(ring: seq<nat>, prev: seq<nat>, next: seq<nat>) {
    && |prev| == |next| == NBUF + 1
    && (forall i :: 0 <= i < |ring| ==> ring[i] < NBUF)
    && Distinct(ring)
    && (forall k :: -1 <= k < |ring| ==> next[Node(ring, k)] == Node(ring, k + 1))
    && (forall k :: 0 <= k <= |ring| ==> prev[Node(ring, k)] == Node(ring, k - 1))
  }

  ghost function Position(s: seq<nat>, b: nat): (k: nat)
    requires b in s
    ensures k < |s| && s[k] == b
  {
    var k :| 0 <= k < |s| && s[k] == b;
    k
  }

  ghost function Without(s: seq<nat>, b: nat): seq<nat> {
    if b in s then s[..Position(s, b)] + s[Position(s, b) + 1..] else s
  }

  lemma WithoutKeeps(s: seq<nat>, b: nat)
    requires Distinct(s)
    ensures b !in Without(s, b) && forall x :: x in s && x != b ==> x in Without(s, b)
  {
    if b in s {
      var k := Position(s, b);
      forall x | x in s && x != b ensures x in Without(s, b) {
        var i := Position(s, x);
        assert x == if i < k then Without(s, b)[i] else Without(s, b)[i - 1];
      }
    }
  }

  /** Taking a node out of the list leaves the others linked in the same order. */
  lemma UnlinkKeepsList(ring: seq<nat>, prev: seq<nat>, next: seq<nat>, k: nat)
    requires Linked(ring, prev, next) && k < |ring|
    ensures next[ring[k]] <= NBUF && prev[ring[k]] <= NBUF
    ensures Linked(ring[..k] + ring[k + 1..], prev[next[ring[k]] := prev[ring[k]]], next[prev[ring[k]] := next[ring[k]]])
  {
    var b := ring[k];
    var rest := ring[..k] + ring[k + 1..];
    assert next[Node(ring, k)] == Node(ring, k + 1);
    assert prev[Node(ring, k)] == Node(ring, k - 1);
    var prev', next' := prev[next[b] := prev[b]], next[prev[b] := next[b]];
    forall i | -1 <= i < |rest| ensures next'[Node(rest, i)] == Node(rest, i + 1) {
      var o := if i < k then i else i + 1;
      assert Node(rest, i) == Node(ring, o);
      assert next[Node(ring, o)] == Node(ring, o + 1);
    }
    forall i | 0 <= i <= |rest| ensures prev'[Node(rest, i)] == Node(rest, i - 1) {
      var o := if i < k then i else i + 1;
      assert Node(rest, i) == Node(ring, o);
      assert prev[Node(ring, o)] == Node(ring, o - 1);
    }
  }

  /** Putting a node behind the head makes it the first of the list. */
  lemma PushKeepsList(ring: seq<nat>, prev: seq<nat>, next: seq<nat>, b: nat)
    requires Linked(ring, prev, next) && b < NBUF && b !in ring
    ensures next[HEAD] <= NBUF
    ensures Linked([b] + ring, prev[b := HEAD][next[HEAD] := b], next[b := next[HEAD]][HEAD := b])
  {
    var all := [b] + ring;
    assert next[Node(ring, -1)] == Node(ring, 0);
    var prev', next' := prev[b := HEAD][next[HEAD] := b], next[b := next[HEAD]][HEAD := b];
    forall i | -1 <= i < |all| ensures next'[Node(all, i)] == Node(all, i + 1) {
      assert i > 0 ==> Node(all, i) == Node(ring, i - 1) && next[Node(ring, i - 1)] == Node(ring, i);
    }
    forall i | 0 <= i <= |all| ensures prev'[Node(all, i)] == Node(all, i - 1) {
      assert i > 0 ==> Node(all, i) == Node(ring, i - 1) && prev[Node(ring, i - 1)] == Node(ring, i - 2);
    }
  }

  // ---- what the buffers say about the disk ----

  type Key = (nat, nat)  // device, block number

  /** No block of a real device has two buffers: `slot` is the inverse of the buffers' tags. */
  ghost predicate Unique(buf: seq<Buf>, slot: map<Key, nat>) {
    && |buf| == NBUF
    && (forall i :: 0 <= i < NBUF && buf[i].dev != 0 ==> (buf[i].dev, buf[i].blockno) in slot)
    && (forall i :: 0 <= i < NBUF && buf[i].dev != 0 ==> slot[(buf[i].dev, buf[i].blockno)] == i)
    && (forall k :: k in slot ==> k.0 != 0 && slot[k] < NBUF && buf[slot[k]].dev == k.0 && buf[slot[k]].blockno == k.1)
  }

  /** What an unlocked clean buffer holds is what the disk holds. */
  ghost predicate Coherent(b: Buf, blocks: seq<Block>) {
    && (b.dirty ==> b.valid)
    && (b.locked ==> b.refcnt > 0)
    && (b.valid ==> b.dev == ROOTDEV && b.blockno < |blocks|)
    && (b.valid && !b.dirty && !b.locked ==> b.data == blocks[b.blockno])
  }

  /** What a holder must leave behind: a buffer that is unmodified, pinned or written. */
  ghost predicate Settled(b: Buf, blocks: seq<Block>) {
    b.dirty || (b.blockno < |blocks| && b.data == blocks[b.blockno])
  }

  ghost predicate Consistent(buf: seq<Buf>, slot: map<Key, nat>, blocks: seq<Block>) {
    Unique(buf, slot) && forall i :: 0 <= i < NBUF ==> Coherent(buf[i], blocks)
  }

  /** The value last written to block n: its buffer's data if it has a valid buffer. */
  ghost function ViewAt(buf: seq<Buf>, slot: map<Key, nat>, blocks: seq<Block>, n: nat): Block
    requires Unique(buf, slot) && n < |blocks|
  {
    if (ROOTDEV, n) in slot && buf[slot[(ROOTDEV, n)]].valid then buf[slot[(ROOTDEV, n)]].data else blocks[n]
  }

  /** The plain block map the cache implements. */
  ghost function View(buf: seq<Buf>, slot: map<Key, nat>, blocks: seq<Block>): (m: seq<Block>)
    requires Unique(buf, slot)
    ensures |m| == |blocks| && forall n :: 0 <= n < |blocks| ==> m[n] == ViewAt(buf, slot, blocks, n)
  {
    seq(|blocks|, n requires 0 <= n < |blocks| => ViewAt(buf, slot, blocks, n))
  }

  /** The blocks whose buffers are pinned by B_DIRTY. */
  ghost function Dirty(buf: seq<Buf>, slot: map<Key, nat>, disk: nat): set<nat>
    requires Unique(buf, slot)
  {
    set n: nat | 0 <= n < disk && (ROOTDEV, n) in slot && buf[slot[(ROOTDEV, n)]].dirty
  }

  /** A recyclable buffer can be given to another block: what it held is already on the disk. */
  lemma RecycleKeepsView(buf: seq<Buf>, slot: map<Key, nat>, blocks: seq<Block>, dev: nat, blockno: nat, b: nat)
    returns (buf': seq<Buf>, slot': map<Key, nat>)
    requires Consistent(buf, slot, blocks) && dev != 0 && (dev, blockno) !in slot && b < NBUF && Recyclable(buf[b])
    ensures buf' == buf[b := Buf(dev, blockno, 1, false, false, false, buf[b].data)]
    ensures slot' == (slot - {(buf[b].dev, buf[b].blockno)})[(dev, blockno) := b]
    ensures Consistent(buf', slot', blocks) && View(buf', slot', blocks) == View(buf, slot, blocks)
    ensures Dirty(buf', slot', |blocks|) == Dirty(buf, slot, |blocks|)
  {
    buf' := buf[b := Buf(dev, blockno, 1, false, false, false, buf[b].data)];
    slot' := (slot - {(buf[b].dev, buf[b].blockno)})[(dev, blockno) := b];
    assert Unique(buf', slot');
    forall n | 0 <= n < |blocks| ensures ViewAt(buf', slot', blocks, n) == ViewAt(buf, slot, blocks, n) {
      if (ROOTDEV, n) in slot && slot[(ROOTDEV, n)] == b {
        assert Coherent(buf[b], blocks);
      }
    }
  }

  /** Changing one buffer in place, keeping its tag, changes the view of its block only. */
  lemma UpdateBuffer(buf: seq<Buf>, slot: map<Key, nat>, blocks: seq<Block>, i: nat, b: Buf)
    requires Consistent(buf, slot, blocks) && i < NBUF
    requires b.dev == buf[i].dev == ROOTDEV && b.blockno == buf[i].blockno < |blocks|
    requires Coherent(b, blocks)
    ensures Consistent(buf[i := b], slot, blocks)
    ensures View(buf[i := b], slot, blocks)
            == View(buf, slot, blocks)[b.blockno := if b.valid then b.data else blocks[b.blockno]]
    ensures Dirty(buf[i := b], slot, |blocks|) == if b.dirty then Dirty(buf, slot, |blocks|) + {b.blockno} else Dirty(buf, slot, |blocks|) - {b.blockno}
  {
    assert Unique(buf[i := b], slot);
  }

  /** Unlocking a buffer keeps the cache in order exactly when what it holds is pinned or on the disk. */
  lemma ReleaseBuffer(buf: seq<Buf>, slot: map<Key, nat>, blocks: seq<Block>, i: nat)
    requires Consistent(buf, slot, blocks) && i < NBUF && buf[i].locked
    ensures buf[i].refcnt > 0
    ensures var buf' := buf[i := buf[i].(locked := false, refcnt := buf[i].refcnt - 1)];
            && (Consistent(buf', slot, blocks) <==> !buf[i].valid || Settled(buf[i], blocks))
            && (Consistent(buf', slot, blocks) ==>
                  View(buf', slot, blocks) == View(buf, slot, blocks) && Dirty(buf', slot, |blocks|) == Dirty(buf, slot, |blocks|))
  {
    assert Coherent(buf[i], blocks);
    var buf' := buf[i := buf[i].(locked := false, refcnt := buf[i].refcnt - 1)];
    assert Unique(buf', slot);
    assert Coherent(buf'[i], blocks) <==> !buf[i].valid || Settled(buf[i], blocks);
    forall j | 0 <= j < NBUF && j != i ensures Coherent(buf'[j], blocks) {
      assert Coherent(buf[j], blocks);
    }
  }

  /** Writing a buffer back changes the disk but not the view. */
  lemma WriteBack(buf: seq<Buf>, slot: map<Key, nat>, blocks: seq<Block>, i: nat)
    requires Consistent(buf, slot, blocks) && i < NBUF && buf[i].locked && buf[i].valid
    ensures buf[i].dev == ROOTDEV && buf[i].blockno < |blocks|
    ensures var blocks' := blocks[buf[i].blockno := buf[i].data];
            var buf' := buf[i := buf[i].(dirty := false)];
            && Consistent(buf', slot, blocks') && View(buf', slot, blocks') == View(buf, slot, blocks)
            && Dirty(buf', slot, |blocks|) == Dirty(buf, slot, |blocks|) - {buf[i].blockno}
  {
    assert Coherent(buf[i], blocks);
    var n := buf[i].blockno;
    var blocks' := blocks[n := buf[i].data];
    var buf' := buf[i := buf[i].(dirty := false)];
    assert Unique(buf', slot);
    forall j | 0 <= j < NBUF ensures Coherent(buf'[j], blocks') {
      assert Coherent(buf[j], blocks);
    }
  }

  /** What bread makes of the buffer it returns; `hit` if the block was cached. */
  function Opened(b: Buf, hit: bool, blockno: nat, data: Block): Buf {
    if hit then b.(refcnt := b.refcnt + 1, locked := true, valid := true, data := data)
    else Buf(ROOTDEV, blockno, 1, true, false, true, data)
  }

  class Bcache {
    const disk: Disk
    var buf: seq<Buf>
    var prev: seq<nat>
    var next: seq<nat>
    ghost var ring: seq<nat>       // list order, most recently used first
    ghost var slot: map<Key, nat>  // the one buffer of each cached block of a device other than 0

    /** The list threads every buffer. */
    ghost predicate Threaded()
      reads this`ring, this`prev, this`next
    {
      Linked(ring, prev, next) && |ring| == NBUF && forall i :: 0 <= i < NBUF ==> i in ring
    }

    ghost predicate Valid()
      reads this, disk
    {
      Threaded() && Consistent(buf, slot, disk.blocks)
    }

    ghost function Logical(): (m: seq<Block>)
      requires Valid()
      reads this, disk
      ensures |m| == |disk.blocks|
    {
      View(buf, slot, disk.blocks)
    }

    ghost function Pinned(): (p: set<nat>)
      requires Valid()
      reads this, disk
      ensures forall n :: n in p ==> n < |disk.blocks|
    {
      Dirty(buf, slot, |disk.blocks|)
    }

    /** Some process holds block n's buffer. */
    ghost predicate Locked(n: nat)
      requires Unique(buf, slot)
      reads this
    {
      (ROOTDEV, n) in slot && buf[slot[(ROOTDEV, n)]].locked
    }

    /** binit: thread all buffers on the list. */
    constructor (d: Disk)
      ensures Valid() && disk == d && slot == map[] && Logical() == d.blocks
      ensures forall i :: 0 <= i < NBUF ==> Recyclable(buf[i])
    {
      disk := d;
      buf := seq(NBUF, _ => UNUSED);
      slot := map[];
      var p, n, r := ThreadAll();
      prev, next, ring := p, n, r;
    }

    /** bget's first loop: walk the list forwards for a cached block. */
    method Find(dev: nat, blockno: nat) returns (b: nat)
      requires Valid() && dev != 0
      ensures b == if (dev, blockno) in slot then slot[(dev, blockno)] else HEAD
    {
      b := next[HEAD];
      ghost var k := 0;
      assert next[Node(ring, -1)] == Node(ring, 0);
      while b != HEAD
        invariant 0 <= k <= NBUF && b == Node(ring, k)
        invariant forall j :: 0 <= j < k ==> buf[ring[j]].dev != dev || buf[ring[j]].blockno != blockno
        decreases NBUF - k
      {
        if buf[b].dev == dev && buf[b].blockno == blockno {
          return;
        }
        assert next[Node(ring, k)] == Node(ring, k + 1);
        b := next[b];
        k := k + 1;
      }
      forall i | 0 <= i < NBUF ensures buf[i].dev != dev || buf[i].blockno != blockno {
        assert i in ring;
      }
    }

    /** bget's second loop: walk the list backwards for the least recently used recyclable buffer. */
    method FindVictim() returns (b: nat)
      requires Valid()
      ensures b == HEAD <==> forall i :: 0 <= i < NBUF ==> !Recyclable(buf[i])
      ensures b != HEAD ==> LeastRecent(buf, ring, b)
      ensures b <= HEAD
    {
      b := prev[HEAD];
      ghost var k := NBUF - 1;
      assert prev[Node(ring, NBUF)] == Node(ring, NBUF - 1);
      while b != HEAD
        invariant -1 <= k < NBUF && b == Node(ring, k)
        invariant forall j :: k < j < NBUF ==> !Recyclable(buf[ring[j]])
        decreases k
      {
        if Recyclable(buf[b]) {
          assert b == ring[k] && forall j :: k < j < |ring| ==> !Recyclable(buf[ring[j]]);
          return;
        }
        assert prev[Node(ring, k)] == Node(ring, k - 1);
        b := prev[b];
        k := k - 1;
      }
      forall i | 0 <= i < NBUF ensures !Recyclable(buf[i]) {
        assert i in ring;
      }
    }

    /** bget, up to the release of bcache.lock. None is the panic "bget: no buffers". */
    method Bget(dev: nat, blockno: nat) returns (r: Option<nat>)
      requires Valid() && dev != 0
      modifies this
      ensures Valid() && Logical() == old(Logical()) && Pinned() == old(Pinned())
      ensures r == None <==> (dev, blockno) !in old(slot) && forall i :: 0 <= i < NBUF ==> !Recyclable(old(buf)[i])
      ensures r == None <==>
                (dev, blockno) !in old(slot) && forall i :: 0 <= i < NBUF ==> old(buf)[i].refcnt > 0 || old(buf)[i].dirty
      ensures r == None ==> buf == old(buf) && slot == old(slot)
      ensures r.Some? ==> r.value < NBUF && (dev, blockno) in slot && slot[(dev, blockno)] == r.value
      ensures r.Some? ==> forall i :: 0 <= i < NBUF && i != r.value ==> buf[i] == old(buf)[i]
      ensures r.Some? && (dev, blockno) !in old(slot) ==> old(buf)[r.value].refcnt == 0 && !old(buf)[r.value].dirty
      ensures r.Some? && (dev, blockno) in old(slot) ==>
                && slot == old(slot)
                && buf == old(buf)[r.value := old(buf)[r.value].(refcnt := old(buf)[r.value].refcnt + 1)]
      ensures r.Some? && (dev, blockno) !in old(slot) ==>
                && Recyclable(old(buf)[r.value]) && LeastRecent(old(buf), ring, r.value)
                && buf == old(buf)[r.value := Buf(dev, blockno, 1, false, false, false, old(buf)[r.value].data)]
                && slot == (old(slot) - {(old(buf)[r.value].dev, old(buf)[r.value].blockno)})[(dev, blockno) := r.value]
      ensures ring == old(ring)
    {
      var b := Find(dev, blockno);
      if b != HEAD {
        buf := buf[b := buf[b].(refcnt := buf[b].refcnt + 1)];
        return Some(b);
      }
      b := FindVictim();
      if b == HEAD {
        return None;
      }
      Recycle(dev, blockno, b);
      return Some(b);
    }

    /** The recycling step of bget: what the victim held is already on the disk. */
    method Recycle(dev: nat, blockno: nat, b: nat)
      requires Valid() && dev != 0 && (dev, blockno) !in slot && b < NBUF && Recyclable(buf[b])
      modifies this
      ensures Valid() && Logical() == old(Logical()) && Pinned() == old(Pinned())
      ensures slot == (old(slot) - {(old(buf)[b].dev, old(buf)[b].blockno)})[(dev, blockno) := b]
      ensures buf == old(buf)[b := Buf(dev, blockno, 1, false, false, false, old(buf)[b].data)]
      ensures ring == old(ring)
    {
      ghost var buf', slot' := RecycleKeepsView(buf, slot, disk.blocks, dev, blockno, b);
      assert !buf[b].locked by { assert Coherent(buf[b], disk.blocks); }
      buf := buf[b := buf[b].(dev := dev, blockno := blockno, valid := false, dirty := false, refcnt := 1)];
      slot := slot';
    }

    /** The acquiresleep that ends bget; enabled when nobody holds the buffer. */
    method Lock(b: nat)
      requires Valid() && b < NBUF && buf[b].refcnt > 0 && !buf[b].locked
      modifies this
      ensures Valid() && Logical() == old(Logical()) && Pinned() == old(Pinned())
      ensures buf == old(buf)[b := old(buf)[b].(locked := true)]
      ensures slot == old(slot) && ring == old(ring)
    {
      assert Coherent(buf[b], disk.blocks);
      buf := buf[b := buf[b].(locked := true)];
    }

    /** bread's tail: iderw fills a buffer that is not valid yet. */
    method Fill(b: nat)
      requires Valid() && b < NBUF && buf[b].locked
      requires buf[b].dev == ROOTDEV && buf[b].blockno < |disk.blocks|
      modifies this
      ensures Valid() && Logical() == old(Logical()) && Pinned() == old(Pinned())
      ensures buf == old(buf)[b := old(buf)[b].(valid := true, data := Logical()[old(buf)[b].blockno])]
      ensures slot == old(slot) && ring == old(ring)
    {
      if !buf[b].valid {
        ghost var filled := buf[b].(valid := true, data := disk.blocks[buf[b].blockno]);
        assert Coherent(buf[b], disk.blocks);
        UpdateBuffer(buf, slot, disk.blocks, b, filled);
        buf := buf[b := buf[b].(valid := true, data := disk.blocks[buf[b].blockno])];
      }
    }

    /** bread for a block nobody else holds. The buffer holds the block's last written value. */
    method Bread(blockno: nat) returns (r: Option<nat>)
      requires Valid() && blockno < |disk.blocks| && !Locked(blockno)
      modifies this
      ensures Valid() && Logical() == old(Logical()) && Pinned() == old(Pinned())
      ensures r == None <==> (ROOTDEV, blockno) !in old(slot) && forall i :: 0 <= i < NBUF ==> !Recyclable(old(buf)[i])
      ensures r == None ==> buf == old(buf) && slot == old(slot)
      ensures r.Some? ==>
                && r.value < NBUF
                && buf == old(buf)[r.value := Opened(old(buf)[r.value], (ROOTDEV, blockno) in old(slot), blockno, Logical()[blockno])]
      ensures r.Some? ==> (ROOTDEV, blockno) in slot && slot[(ROOTDEV, blockno)] == r.value
      ensures r.Some? && (ROOTDEV, blockno) !in old(slot) ==> Recyclable(old(buf)[r.value])
    {
      hide LeastRecent, Linked;
      r := Bget(ROOTDEV, blockno);
      if r.Some? {
        Lock(r.value);
        Fill(r.value);
      }
    }

    /** The holder of a buffer assigns to its data. */
    method Modify(b: nat, data: Block)
      requires Valid() && b < NBUF && buf[b].locked && buf[b].valid
      modifies this
      ensures old(buf)[b].blockno < |disk.blocks|
      ensures Valid() && Logical() == old(Logical())[old(buf)[b].blockno := data] && Pinned() == old(Pinned())
      ensures buf == old(buf)[b := old(buf)[b].(data := data)]
      ensures slot == old(slot) && ring == old(ring)
    {
      assert Coherent(buf[b], disk.blocks);
      UpdateBuffer(buf, slot, disk.blocks, b, buf[b].(data := data));
      buf := buf[b := buf[b].(data := data)];
    }

    /** log_write's `b->flags |= B_DIRTY`: the buffer cannot be recycled until it is written. */
    method Pin(b: nat)
      requires Valid() && b < NBUF && buf[b].locked && buf[b].valid
      modifies this
      ensures Valid() && Logical() == old(Logical()) && Pinned() == old(Pinned()) + {buf[b].blockno}
      ensures buf == old(buf)[b := old(buf)[b].(dirty := true)]
      ensures slot == old(slot) && ring == old(ring)
    {
      assert Coherent(buf[b], disk.blocks);
      UpdateBuffer(buf, slot, disk.blocks, b, buf[b].(dirty := true));
      buf := buf[b := buf[b].(dirty := true)];
    }

    /** bwrite: the only way a buffer's data reaches the disk, to its own block. */
    method Bwrite(b: nat)
      requires Valid() && b < NBUF && buf[b].locked && buf[b].valid
      modifies this, disk
      ensures Valid() && Logical() == old(Logical()) && Pinned() == old(Pinned()) - {buf[b].blockno}
      ensures old(buf)[b].blockno < old(|disk.blocks|)
      ensures disk.blocks == old(disk.blocks)[old(buf)[b].blockno := old(buf)[b].data]
      ensures disk.writes == old(disk.writes) + [Write(old(buf)[b].blockno, old(buf)[b].data)]
      ensures buf == old(buf)[b := old(buf)[b].(dirty := false)]
      ensures slot == old(slot) && ring == old(ring)
    {
      assert Coherent(buf[b], disk.blocks);
      WriteBack(buf, slot, disk.blocks, b);
      disk.Store(buf[b].blockno, buf[b].data);
      buf := buf[b := buf[b].(dirty := false)];
    }

    /** brelse: the last user moves it to the front. A holder that leaves a buffer modified, neither pinned nor written,
        has broken the cache. */
    method Brelse(b: nat)
      requires Valid() && b < NBUF && buf[b].locked
      modifies this
      ensures Threaded() && slot == old(slot) && old(buf)[b].refcnt > 0
      ensures buf == old(buf)[b := old(buf)[b].(locked := false, refcnt := old(buf)[b].refcnt - 1)]
      ensures ring == if buf[b].refcnt > 0 then old(ring) else [b] + Without(old(ring), b)
      ensures Valid() <==> !old(buf)[b].valid || Settled(old(buf)[b], disk.blocks)
      ensures Valid() ==> Logical() == old(Logical()) && Pinned() == old(Pinned())
    {
      hide Linked, Without;
      ReleaseBuffer(buf, slot, disk.blocks, b);
      buf := buf[b := buf[b].(locked := false, refcnt := buf[b].refcnt - 1)];
      if buf[b].refcnt == 0 {
        MoveToFront(b);
      }
    }

    /** The list surgery of brelse. */
    method MoveToFront(b: nat)
      requires Threaded() && b < NBUF
      modifies this`prev, this`next, this`ring
      ensures Threaded()
      ensures ring == [b] + Without(old(ring), b)
    {
      assert b in ring;
      ghost var k := Position(ring, b);
      UnlinkKeepsList(ring, prev, next, k);
      prev := prev[next[b] := prev[b]];
      next := next[prev[b] := next[b]];
      ghost var rest := Without(ring, b);
      PushKeepsList(rest, prev, next, b);
      next := next[b := next[HEAD]];
      prev := prev[b := HEAD];
      prev := prev[next[HEAD] := b];
      next := next[HEAD := b];
      WithoutKeeps(ring, b);
      ring := [b] + rest;
    }
  }

  /** binit's loop: push every buffer behind the head. */
  method ThreadAll() returns (prev: seq<nat>, next: seq<nat>, ghost ring: seq<nat>)
    ensures Linked(ring, prev, next) && |ring| == NBUF
    ensures forall i :: 0 <= i < NBUF ==> i in ring
  {
    ring := [];
    prev := seq(NBUF + 1, _ => HEAD);
    next := seq(NBUF + 1, _ => HEAD);
    var b := 0;
    while b < NBUF
      invariant 0 <= b <= NBUF
      invariant Linked(ring, prev, next) && |ring| == b
      invariant forall i :: 0 <= i < b ==> i in ring
      invariant forall i :: 0 <= i < |ring| ==> ring[i] < b
    {
      PushKeepsList(ring, prev, next, b);
      var first := next[HEAD];
      next := next[b := first];
      prev := prev[b := HEAD];
      prev := prev[first := b];
      next := next[HEAD := b];
      ghost var was := ring;
      ring := [b] + ring;
      assert forall i :: 0 <= i < b ==> i in was;
      assert ring[0] == b;
      b := b + 1;
    }
  }
}
