/** The loops of log.c over the buffer cache: write_log, write_head, install_trans and read_head, and what commit and
    recovery make of them. */
module LogSystem {
  import opened Blocks
  import opened BufferCache
  import opened RedoLog

  /** The buffers in `mine` are held by this process, each once and with its lock; those in `others` are in use by other
      processes; no other buffer is in use. */
  ghost predicate InUse(buf: seq<Buf>, mine: set<nat>, others: set<nat>) {
    forall i :: 0 <= i < |buf| ==>
      if i in mine then buf[i].refcnt == 1 && buf[i].locked && buf[i].valid && i !in others
      else buf[i].refcnt > 0 <==> i in others
  }

  /** The other processes only read, and none of the blocks `bl` or of the log. */
  ghost predicate Readers(buf: seq<Buf>, others: set<nat>, a: Area, bl: seq<uint32>) {
    forall i :: i in others ==>
      i < NBUF && i < |buf| && !buf[i].dirty && buf[i].blockno !in bl && !(a.start <= buf[i].blockno < a.start + a.size)
  }

  /** Their buffers are untouched. */
  ghost predicate LeftAlone(buf: seq<Buf>, buf': seq<Buf>, others: set<nat>) {
    |buf'| == |buf| && forall i :: i in others && i < |buf| ==> buf'[i] == buf[i]
  }

  /** The buffers that are not pinned stay so. */
  ghost predicate Unpinned(buf: seq<Buf>, buf': seq<Buf>) {
    |buf'| == |buf| && forall i :: 0 <= i < |buf| && !buf[i].dirty ==> !buf'[i].dirty
  }

  ghost predicate HasFree(buf: seq<Buf>, others: set<nat>) {
    exists i :: 0 <= i < |buf| && i !in others && !buf[i].dirty
  }

  ghost predicate HasTwoFree(buf: seq<Buf>, others: set<nat>) {
    exists i, j :: 0 <= i < j < |buf| && i !in others && j !in others && !buf[i].dirty && !buf[j].dirty
  }

  /** bread of a block that no other process holds. None is the panic "bget: no buffers". */
  method Open(bc: Bcache, x: nat, ghost mine: set<nat>, ghost others: set<nat>) returns (r: Option<nat>)
    requires bc.Valid() && InUse(bc.buf, mine, others) && x < |bc.disk.blocks|
    requires forall i :: i in mine + others ==> i < NBUF && bc.buf[i].blockno != x
    modifies bc
    ensures bc.Valid() && bc.Logical() == old(bc.Logical()) && bc.Pinned() == old(bc.Pinned())
    ensures |bc.buf| == |old(bc.buf)| == NBUF
    ensures r.Some? ==>
              && r.value < NBUF && r.value !in mine + others && InUse(bc.buf, mine + {r.value}, others)
              && bc.buf[r.value].blockno == x && bc.buf[r.value].data == bc.Logical()[x]
              && Settled(bc.buf[r.value], bc.disk.blocks) && (bc.buf[r.value].dirty <==> x in bc.Pinned())
    ensures Unpinned(old(bc.buf), bc.buf) && LeftAlone(old(bc.buf), bc.buf, mine + others)
    ensures x in old(bc.Pinned()) ==> r.Some?
    ensures x !in old(bc.Pinned()) && !HasFree(old(bc.buf), others) ==> r == None
    ensures HasFree(old(bc.buf), mine + others) ==> r.Some?
  {
    assert (ROOTDEV, x) in bc.slot ==> bc.slot[(ROOTDEV, x)] !in mine + others;
    assert !bc.Locked(x) by {
      if (ROOTDEV, x) in bc.slot {
        assert Coherent(bc.buf[bc.slot[(ROOTDEV, x)]], bc.disk.blocks);
      }
    }
    ghost var was := bc.buf;
    r := bc.Bread(x);
    assert r.Some? ==> Coherent(was[r.value], bc.disk.blocks);
  }

  /** Two breads in a row. */
  method OpenTwo(bc: Bcache, x: nat, y: nat, ghost others: set<nat>) returns (r: Option<(nat, nat)>)
    requires bc.Valid() && InUse(bc.buf, {}, others) && x != y && x < |bc.disk.blocks| && y < |bc.disk.blocks|
    requires forall i :: i in others ==> i < NBUF && bc.buf[i].blockno != x && bc.buf[i].blockno != y
    modifies bc
    ensures bc.Valid() && bc.Logical() == old(bc.Logical()) && bc.Pinned() == old(bc.Pinned())
    ensures r.Some? ==>
              && r.value.0 < NBUF && r.value.1 < NBUF && r.value.0 != r.value.1
              && InUse(bc.buf, {r.value.0, r.value.1}, others)
              && bc.buf[r.value.0].blockno == x && bc.buf[r.value.0].data == bc.Logical()[x]
              && bc.buf[r.value.1].blockno == y && bc.buf[r.value.1].data == bc.Logical()[y]
              && Settled(bc.buf[r.value.0], bc.disk.blocks) && Settled(bc.buf[r.value.1], bc.disk.blocks)
    ensures Unpinned(old(bc.buf), bc.buf) && LeftAlone(old(bc.buf), bc.buf, others)
    ensures HasFree(old(bc.buf), others) && (y in old(bc.Pinned()) || HasTwoFree(old(bc.buf), others)) ==> r.Some?
    ensures x !in old(bc.Pinned()) && !HasFree(old(bc.buf), others) ==> r == None
  {
    hide Bcache.Valid, Bcache.Logical, Bcache.Pinned;
    assert {} + others == others;
    var a := Open(bc, x, {}, others);
    if a == None {
      return None;
    }
    assert {} + {a.value} == {a.value};
    var b := Open(bc, y, {a.value}, others);
    if b == None {
      return None;
    }
    assert {a.value} + {b.value} == {a.value, b.value};
    return Some((a.value, b.value));
  }

  lemma StillFree(buf: seq<Buf>, buf': seq<Buf>, others: set<nat>)
    requires Unpinned(buf, buf')
    ensures HasFree(buf, others) ==> HasFree(buf', others)
    ensures HasTwoFree(buf, others) ==> HasTwoFree(buf', others)
    ensures HasTwoFree(buf, others) ==> HasFree(buf, others)
  {
  }

  lemma CacheSize(bc: Bcache)
    requires bc.Valid()
    ensures |bc.buf| == NBUF
  {
  }

  lemma DifferentBlocks(bc: Bcache, x: nat, y: nat)
    requires bc.Valid() && x < NBUF && y < NBUF && x != y && bc.buf[x].valid && bc.buf[y].valid
    ensures bc.buf[x].blockno != bc.buf[y].blockno
  {
    assert Coherent(bc.buf[x], bc.disk.blocks) && Coherent(bc.buf[y], bc.disk.blocks);
  }

  /** memmove(to->data, from->data), bwrite(to), brelse(from), brelse(to). */
  method Transfer(bc: Bcache, from: nat, to: nat, ghost others: set<nat>)
    requires bc.Valid() && from < NBUF && to < NBUF && from != to && InUse(bc.buf, {from, to}, others)
    requires Settled(bc.buf[from], bc.disk.blocks)
    modifies bc, bc.disk
    ensures bc.Valid() && InUse(bc.buf, {}, others) && Unpinned(old(bc.buf), bc.buf) && LeftAlone(old(bc.buf), bc.buf, others)
    ensures var dst, data := old(bc.buf)[to].blockno, old(bc.buf)[from].data;
            && dst < old(|bc.disk.blocks|)
            && bc.disk.blocks == old(bc.disk.blocks)[dst := data]
            && bc.disk.writes == old(bc.disk.writes) + [Write(dst, data)]
            && bc.Logical() == old(bc.Logical())[dst := data]
            && bc.Pinned() == old(bc.Pinned()) - {dst}
  {
    hide Bcache.Valid, Bcache.Logical, Bcache.Pinned;
    CacheSize(bc);
    DifferentBlocks(bc, from, to);
    WriteInto(bc, to, bc.buf[from].data);
    ReleaseTwo(bc, from, to, others);
  }

  method WriteInto(bc: Bcache, to: nat, data: Block)
    requires bc.Valid() && to < NBUF && bc.buf[to].locked && bc.buf[to].valid
    modifies bc, bc.disk
    ensures bc.Valid() && bc.buf == old(bc.buf)[to := old(bc.buf)[to].(data := data, dirty := false)]
    ensures var dst := old(bc.buf)[to].blockno;
            && dst < old(|bc.disk.blocks|)
            && bc.disk.blocks == old(bc.disk.blocks)[dst := data]
            && bc.disk.writes == old(bc.disk.writes) + [Write(dst, data)]
            && bc.Logical() == old(bc.Logical())[dst := data]
            && bc.Pinned() == old(bc.Pinned()) - {dst}
  {
    bc.Modify(to, data);
    bc.Bwrite(to);
  }

  method ReleaseTwo(bc: Bcache, x: nat, y: nat, ghost others: set<nat>)
    requires bc.Valid() && x < NBUF && y < NBUF && x != y && InUse(bc.buf, {x, y}, others)
    requires Settled(bc.buf[x], bc.disk.blocks) && Settled(bc.buf[y], bc.disk.blocks)
    modifies bc
    ensures bc.Valid() && InUse(bc.buf, {}, others) && Unpinned(old(bc.buf), bc.buf) && LeftAlone(old(bc.buf), bc.buf, others)
    ensures bc.Logical() == old(bc.Logical()) && bc.Pinned() == old(bc.Pinned())
  {
    hide Without, Linked, Bcache.Logical, Bcache.Pinned;
    bc.Brelse(x);
    bc.Brelse(y);
  }

  /** Copy block src to block dst through the cache and write it: the loop body of write_log (dst is opened first)
      and of install_trans (src is opened first). */
  method Copy(bc: Bcache, src: nat, dst: nat, dstFirst: bool, ghost others: set<nat>) returns (ok: bool)
    requires bc.Valid() && InUse(bc.buf, {}, others) && src != dst && src < |bc.disk.blocks| && dst < |bc.disk.blocks|
    requires forall i :: i in others ==> i < NBUF && bc.buf[i].blockno != src && bc.buf[i].blockno != dst
    modifies bc, bc.disk
    ensures bc.Valid() && Unpinned(old(bc.buf), bc.buf) && LeftAlone(old(bc.buf), bc.buf, others)
    ensures ok ==>
              && InUse(bc.buf, {}, others)
              && bc.disk.blocks == old(bc.disk.blocks)[dst := old(bc.Logical())[src]]
              && bc.disk.writes == old(bc.disk.writes) + [Write(dst, old(bc.Logical())[src])]
              && bc.Logical() == old(bc.Logical())[dst := old(bc.Logical())[src]]
              && bc.Pinned() == old(bc.Pinned()) - {dst}
    ensures !ok ==> bc.disk.blocks == old(bc.disk.blocks) && bc.disk.writes == old(bc.disk.writes)
    ensures HasFree(old(bc.buf), others) && ((if dstFirst then src else dst) in old(bc.Pinned()) || HasTwoFree(old(bc.buf), others)) ==> ok
    ensures dstFirst && dst !in old(bc.Pinned()) && !HasFree(old(bc.buf), others) ==> !ok
  {
    var r := OpenTwo(bc, if dstFirst then dst else src, if dstFirst then src else dst, others);
    if r == None {
      return false;
    }
    var (x, y) := r.value;
    if dstFirst {
      Transfer(bc, y, x, others);
    } else {
      assert {x, y} == {y, x};
      Transfer(bc, x, y, others);
    }
    return true;
  }

  /** The cached contents of the listed blocks. */
  ghost function Values(view: seq<Block>, bl: seq<uint32>): (vals: seq<Block>)
    requires forall i :: 0 <= i < |bl| ==> bl[i] < |view|
    ensures |vals| == |bl| && forall i :: 0 <= i < |bl| ==> vals[i] == view[bl[i]]
  {
    seq(|bl|, i requires 0 <= i < |bl| => view[bl[i]])
  }

  ghost predicate SameHome(a: Area, view: seq<Block>, view': seq<Block>) {
    |view| == |view'| && forall n :: 0 <= n < |view| && a.Home(|view|, n) ==> view[n] == view'[n]
  }

  /** write_log: copy the cached contents of the listed blocks to the log blocks. */
  method WriteLog(bc: Bcache, a: Area, lh: seq<uint32>, ghost others: set<nat>) returns (ok: bool)
    requires bc.Valid() && InUse(bc.buf, {}, others) && a.Fits(|bc.disk.blocks|) && Loggable(a, |bc.disk.blocks|, lh)
    requires Readers(bc.buf, others, a, lh)
    requires forall i :: 0 <= i < |lh| ==> lh[i] in bc.Pinned()
    requires forall n :: n in bc.Pinned() ==> a.Home(|bc.disk.blocks|, n)
    modifies bc, bc.disk
    ensures bc.Valid() && |bc.disk.blocks| == old(|bc.disk.blocks|) && Unpinned(old(bc.buf), bc.buf)
    ensures LeftAlone(old(bc.buf), bc.buf, others)
    ensures ok ==>
              && InUse(bc.buf, {}, others) && bc.Pinned() == old(bc.Pinned())
              && bc.disk.writes == old(bc.disk.writes) + LogWrites(a, Values(old(bc.Logical()), lh))
              && bc.disk.blocks == Apply(old(bc.disk.blocks), LogWrites(a, Values(old(bc.Logical()), lh)))
              && SameHome(a, old(bc.Logical()), bc.Logical())
    ensures HasFree(old(bc.buf), others) ==> ok
    ensures !HasFree(old(bc.buf), others) && lh != [] ==> !ok && bc.disk.writes == old(bc.disk.writes)
  {
    hide Bcache.Valid, Bcache.Logical, Bcache.Pinned, Apply;
    ghost var vals := Values(bc.Logical(), lh);
    ghost var ws := LogWrites(a, vals);
    ApplyNone(bc.disk.blocks);
    assert ws[..0] == [];
    var tail := 0;
    while tail < |lh|
      invariant 0 <= tail <= |lh|
      invariant bc.Valid() && InUse(bc.buf, {}, others) && Unpinned(old(bc.buf), bc.buf) && LeftAlone(old(bc.buf), bc.buf, others)
      invariant |bc.disk.blocks| == old(|bc.disk.blocks|) && bc.Pinned() == old(bc.Pinned())
      invariant bc.disk.writes == old(bc.disk.writes) + ws[..tail]
      invariant bc.disk.blocks == Apply(old(bc.disk.blocks), ws[..tail])
      invariant SameHome(a, old(bc.Logical()), bc.Logical())
      invariant if tail == 0 then bc.buf == old(bc.buf) else HasFree(old(bc.buf), others)
    {
      assert bc.Logical()[lh[tail]] == vals[tail];
      ok := Copy(bc, lh[tail], a.start + tail + 1, true, others);
      if !ok {
        return;
      }
      assert ws[..tail + 1] == ws[..tail] + [ws[tail]];
      ApplyMore(old(bc.disk.blocks), ws[..tail], ws[tail]);
      tail := tail + 1;
    }
    assert ws[..tail] == ws;
    ok := true;
  }

  /** Nothing but block n differs. */
  ghost predicate SameExcept(view: seq<Block>, view': seq<Block>, n: nat) {
    |view| == |view'| && forall m :: 0 <= m < |view| && m != n ==> view[m] == view'[m]
  }

  /** The stores of write_head into the header buffer. */
  method EncodeHeader(old_: Block, lh: seq<uint32>) returns (h: Block)
    requires |lh| <= LOGSIZE
    ensures h == Header(old_, lh, |lh|)
  {
    h := PutWord(old_, 0, |lh|);
    var i := 0;
    while i < |lh|
      invariant 0 <= i <= |lh| && h == Header(old_, lh, i)
    {
      h := PutWord(h, 1 + i, lh[i]);
      i := i + 1;
    }
  }

  /** write_head: one block write. */
  method WriteHead(bc: Bcache, a: Area, lh: seq<uint32>, ghost others: set<nat>) returns (ok: bool)
    requires bc.Valid() && InUse(bc.buf, {}, others) && a.Fits(|bc.disk.blocks|) && |lh| <= LOGSIZE
    requires Readers(bc.buf, others, a, [])
    requires a.start !in bc.Pinned()
    modifies bc, bc.disk
    ensures bc.Valid() && |bc.disk.blocks| == old(|bc.disk.blocks|) && Unpinned(old(bc.buf), bc.buf)
    ensures LeftAlone(old(bc.buf), bc.buf, others)
    ensures ok ==>
              && InUse(bc.buf, {}, others) && bc.Pinned() == old(bc.Pinned())
              && bc.disk.writes == old(bc.disk.writes) + [Write(a.start, Header(old(bc.disk.blocks)[a.start], lh, |lh|))]
              && bc.disk.blocks == old(bc.disk.blocks)[a.start := Header(old(bc.disk.blocks)[a.start], lh, |lh|)]
              && SameExcept(old(bc.Logical()), bc.Logical(), a.start)
    ensures HasFree(old(bc.buf), others) ==> ok
  {
    hide Bcache.Valid, Bcache.Logical, Bcache.Pinned;
    var r := Open(bc, a.start, {}, others);
    if r == None {
      return false;
    }
    var b := r.value;
    assert b in {} + {b};
    var h := EncodeHeader(bc.buf[b].data, lh);
    WriteInto(bc, b, h);
    bc.Brelse(b);
    ok := true;
  }

  /** install_trans: copy the log blocks home. */
  method InstallTrans(bc: Bcache, a: Area, lh: seq<uint32>, ghost others: set<nat>) returns (ok: bool)
    requires bc.Valid() && InUse(bc.buf, {}, others) && a.Fits(|bc.disk.blocks|) && Loggable(a, |bc.disk.blocks|, lh)
    requires Readers(bc.buf, others, a, lh)
    requires forall n :: n in bc.Pinned() ==> a.Home(|bc.disk.blocks|, n)
    modifies bc, bc.disk
    ensures bc.Valid() && |bc.disk.blocks| == old(|bc.disk.blocks|) && Unpinned(old(bc.buf), bc.buf)
    ensures LeftAlone(old(bc.buf), bc.buf, others)
    ensures var vals := LogContents(a, old(bc.Logical()), |lh|);
            ok ==>
              && InUse(bc.buf, {}, others) && bc.Pinned() == old(bc.Pinned()) - (set n | n in lh)
              && bc.disk.writes == old(bc.disk.writes) + InstallWrites(lh, vals)
              && bc.disk.blocks == Apply(old(bc.disk.blocks), InstallWrites(lh, vals))
              && (vals == Values(old(bc.Logical()), lh) ==> bc.Logical() == old(bc.Logical()))
    ensures HasFree(old(bc.buf), others) && (forall i :: 0 <= i < |lh| ==> lh[i] in old(bc.Pinned())) ==> ok
    ensures HasTwoFree(old(bc.buf), others) ==> ok
  {
    hide Bcache.Valid, Bcache.Logical, Bcache.Pinned, Apply, HasFree, HasTwoFree;
    ghost var vals := LogContents(a, bc.Logical(), |lh|);
    ghost var ws := InstallWrites(lh, vals);
    ApplyNone(bc.disk.blocks);
    assert ws[..0] == [];
    var tail := 0;
    while tail < |lh|
      invariant 0 <= tail <= |lh|
      invariant bc.Valid() && InUse(bc.buf, {}, others) && Unpinned(old(bc.buf), bc.buf) && LeftAlone(old(bc.buf), bc.buf, others)
      invariant |bc.disk.blocks| == old(|bc.disk.blocks|)
      invariant bc.Pinned() == old(bc.Pinned()) - (set n | n in lh[..tail])
      invariant bc.disk.writes == old(bc.disk.writes) + ws[..tail]
      invariant bc.disk.blocks == Apply(old(bc.disk.blocks), ws[..tail])
      invariant vals == Values(old(bc.Logical()), lh) ==> bc.Logical() == old(bc.Logical())
      invariant forall n :: a.start <= n < a.start + a.size ==> bc.Logical()[n] == old(bc.Logical())[n]
    {
      assert bc.Logical()[a.start + tail + 1] == vals[tail];
      StillFree(old(bc.buf), bc.buf, others);
      ok := Copy(bc, a.start + tail + 1, lh[tail], false, others);
      if !ok {
        return;
      }
      assert ws[..tail + 1] == ws[..tail] + [ws[tail]];
      assert lh[..tail + 1] == lh[..tail] + [lh[tail]];
      ApplyMore(old(bc.disk.blocks), ws[..tail], ws[tail]);
      tail := tail + 1;
    }
    assert ws[..tail] == ws && lh[..tail] == lh;
    ok := true;
  }

  /** read_head: load the block list of the on-disk header. */
  method ReadHead(bc: Bcache, a: Area, ghost others: set<nat>) returns (r: Option<seq<uint32>>)
    requires bc.Valid() && InUse(bc.buf, {}, others) && a.Fits(|bc.disk.blocks|)
    requires Readers(bc.buf, others, a, [])
    requires Word(bc.Logical()[a.start], 0) <= LOGSIZE
    modifies bc
    ensures bc.Valid() && bc.Logical() == old(bc.Logical()) && bc.Pinned() == old(bc.Pinned())
    ensures Unpinned(old(bc.buf), bc.buf) && LeftAlone(old(bc.buf), bc.buf, others)
    ensures r.Some? ==> InUse(bc.buf, {}, others) && r.value == Logged(bc.Logical()[a.start])
    ensures HasFree(old(bc.buf), others) ==> r.Some?
  {
    hide Bcache.Valid, Bcache.Logical, Bcache.Pinned;
    var o := Open(bc, a.start, {}, others);
    if o == None {
      return None;
    }
    var b := o.value;
    assert b in {} + {b};
    var h := bc.buf[b].data;
    var n := Word(h, 0);
    var lh := [];
    var i := 0;
    while i < n
      invariant 0 <= i <= n && lh == Logged(h)[..i]
    {
      lh := lh + [Word(h, 1 + i)];
      i := i + 1;
    }
    bc.Brelse(b);
    return Some(lh);
  }

  // ---- commit and recovery as write sequences ----

  ghost function AsSet(s: seq<nat>): set<nat> {
    set n | n in s
  }

  /** What the readers hold is what the disk holds. */
  ghost predicate Unmodified(buf: seq<Buf>, others: set<nat>, blocks: seq<Block>) {
    forall i :: i in others && i < |buf| && buf[i].valid ==> buf[i].blockno < |blocks| && buf[i].data == blocks[buf[i].blockno]
  }

  /** When nobody is writing, a block that is not pinned reads as it is on the disk. */
  lemma UnpinnedReadsDisk(bc: Bcache, others: set<nat>)
    requires bc.Valid() && InUse(bc.buf, {}, others) && Unmodified(bc.buf, others, bc.disk.blocks)
    ensures forall n :: 0 <= n < |bc.disk.blocks| && n !in bc.Pinned() ==> bc.Logical()[n] == bc.disk.blocks[n]
  {
    forall n | 0 <= n < |bc.disk.blocks| && n !in bc.Pinned() ensures bc.Logical()[n] == bc.disk.blocks[n] {
      if (ROOTDEV, n) in bc.slot {
        assert Coherent(bc.buf[bc.slot[(ROOTDEV, n)]], bc.disk.blocks);
      }
    }
  }

  lemma StillUnmodified(a: Area, buf: seq<Buf>, buf': seq<Buf>, others: set<nat>, blocks: seq<Block>, lh: seq<uint32>, vals: seq<Block>)
    requires Readers(buf, others, a, lh) && Unmodified(buf, others, blocks) && LeftAlone(buf, buf', others)
    requires a.Fits(|blocks|) && |vals| < a.size
    ensures Unmodified(buf', others, Apply(blocks, LogWrites(a, vals)))
  {
    AfterLogWrites(a, blocks, vals, |vals|);
    assert LogWrites(a, vals)[..|vals|] == LogWrites(a, vals);
  }

  lemma LogContentsOf(a: Area, img: Image, view: Image, bl: seq<uint32>)
    requires a.Fits(|img|) && |view| == |img| && |bl| < a.size
    requires forall n :: a.start <= n < a.start + a.size ==> view[n] == img[n]
    ensures LogContents(a, view, |bl|) == LogContents(a, img, |bl|)
  {
  }

  /** The image after the four phases of commit, phase by phase. */
  lemma CommitImage(a: Area, img: Image, bl: seq<uint32>, vals: seq<Block>)
    requires a.Fits(|img|) && Loggable(a, |img|, bl) && |vals| == |bl|
    ensures var logged := Apply(img, LogWrites(a, vals));
            var committed := logged[a.start := Header(img[a.start], bl, |bl|)];
            var installed := Apply(committed, InstallWrites(bl, vals));
            && logged[a.start] == img[a.start]
            && LogContents(a, logged, |bl|) == vals
            && installed[a.start] == Header(img[a.start], bl, |bl|)
            && Apply(img, CommitWrites(a, img[a.start], bl, vals))
               == installed[a.start := Header(installed[a.start], [], 0)]
  {
    hide Header, Apply;
    AfterLogWrites(a, img, vals, |bl|);
    var lw, iw := LogWrites(a, vals), InstallWrites(bl, vals);
    assert lw[..|bl|] == lw && iw[..|bl|] == iw;
    var logged := Apply(img, lw);
    assert LogWritten(a, img, vals, |bl|, logged);
    StagedImage(a, img, vals, logged, logged[a.start]);
    assert logged[a.start := logged[a.start]] == logged;
    var h := Header(img[a.start], bl, |bl|);
    ApplyMore(img, lw, Write(a.start, h));
    var committed := logged[a.start := h];
    AfterInstallWrites(a, committed, bl, vals, |bl|);
    assert a.start !in bl;
    ApplyConcat(img, lw + [Write(a.start, h)], iw);
    ApplyMore(img, lw + [Write(a.start, h)] + iw, Write(a.start, Header(h, [], 0)));
  }

  /** The first half of commit: write_log and the write_head that commits. */
  method Stage(bc: Bcache, a: Area, lh: seq<uint32>, ghost others: set<nat>) returns (ok: bool)
    requires bc.Valid() && InUse(bc.buf, {}, others) && Clean(a, bc.disk.blocks) && Loggable(a, |bc.disk.blocks|, lh)
    requires Readers(bc.buf, others, a, lh)
    requires lh != [] && bc.Pinned() == AsSet(lh) && Unmodified(bc.buf, others, bc.disk.blocks)
    modifies bc, bc.disk
    ensures bc.Valid() && Unpinned(old(bc.buf), bc.buf) && LeftAlone(old(bc.buf), bc.buf, others)
    ensures |bc.disk.blocks| == old(|bc.disk.blocks|)
    ensures ok <==> HasFree(old(bc.buf), others)
    ensures var img, vals := old(bc.disk.blocks), Values(old(bc.Logical()), lh);
            ok ==>
              && InUse(bc.buf, {}, others) && bc.Pinned() == AsSet(lh)
              && bc.disk.writes == old(bc.disk.writes) + StageWrites(a, img[a.start], lh, vals)
              && bc.disk.blocks == Apply(img, LogWrites(a, vals))[a.start := Header(img[a.start], lh, |lh|)]
              && SameHome(a, old(bc.Logical()), bc.Logical())
              && LogContents(a, bc.Logical(), |lh|) == vals == Values(bc.Logical(), lh)
    ensures !ok ==> bc.disk.writes == old(bc.disk.writes)
  {
    hide Bcache.Valid, Bcache.Logical, Bcache.Pinned, Apply, Header;
    ghost var img, vals := bc.disk.blocks, Values(bc.Logical(), lh);
    CommitImage(a, img, lh, vals);
    ok := WriteLog(bc, a, lh, others);
    if !ok {
      return;
    }
    StillUnmodified(a, old(bc.buf), bc.buf, others, img, lh, vals);
    UnpinnedReadsDisk(bc, others);
    LogContentsOf(a, bc.disk.blocks, bc.Logical(), lh);
    ok := WriteHead(bc, a, lh, others);
  }

  /** commit for a non-empty list. Its writes are exactly those of RedoLog.CommitWrites, with the values the
      cache held; afterwards nothing is pinned. */
  method CommitBlocks(bc: Bcache, a: Area, lh: seq<uint32>, ghost others: set<nat>) returns (ok: bool)
    requires bc.Valid() && InUse(bc.buf, {}, others) && Clean(a, bc.disk.blocks) && Loggable(a, |bc.disk.blocks|, lh)
    requires Readers(bc.buf, others, a, lh)
    requires lh != [] && bc.Pinned() == AsSet(lh) && Unmodified(bc.buf, others, bc.disk.blocks)
    modifies bc, bc.disk
    ensures bc.Valid() && LeftAlone(old(bc.buf), bc.buf, others)
    ensures ok <==> HasFree(old(bc.buf), others)
    ensures var ws := CommitWrites(a, old(bc.disk.blocks)[a.start], lh, Values(old(bc.Logical()), lh));
            ok ==>
              && InUse(bc.buf, {}, others) && bc.Pinned() == {}
              && bc.disk.writes == old(bc.disk.writes) + ws
              && bc.disk.blocks == Apply(old(bc.disk.blocks), ws)
              && SameHome(a, old(bc.Logical()), bc.Logical())
    ensures !ok ==> bc.disk.writes == old(bc.disk.writes)
  {
    hide Bcache.Valid, Bcache.Logical, Bcache.Pinned, Apply, Header, LogWrites, InstallWrites, Values;
    CommitImage(a, bc.disk.blocks, lh, Values(bc.Logical(), lh));
    ok := Stage(bc, a, lh, others);
    if !ok {
      return;
    }
    ok := InstallTrans(bc, a, lh, others);
    ok := WriteHead(bc, a, [], others);
  }

  /** The image after the phases of recovery. */
  lemma RecoveryImage(a: Area, img: Image)
    requires WellFormed(a, img)
    ensures var lh := Logged(img[a.start]);
            var iw, h := InstallWrites(lh, LogContents(a, img, |lh|)), Header(img[a.start], [], 0);
            var installed, r := Apply(img, iw), Apply(img, RecoveryWrites(a, img));
            && RecoveryWrites(a, img) == iw + [Write(a.start, h)]
            && installed[a.start] == img[a.start] && r == installed[a.start := h]
            && Clean(a, r) && HomeBlocks(a, r) == Durable(a, img)
  {
    hide Apply, Header, HomeBlocks;
    var lh, ws := Logged(img[a.start]), RecoveryWrites(a, img);
    var iw := InstallWrites(lh, LogContents(a, img, |lh|));
    InstallReaches(a, img, |lh|);
    assert ws[..|lh|] == iw;
    InstallKeepsLog(a, img, lh, |lh|, Apply(img, iw));
    ApplyMore(img, iw, Write(a.start, Header(img[a.start], [], 0)));
    RecoveryIsRestartable(a, img, |ws|);
    assert ws[..|ws|] == ws;
    CleanDurable(a, Apply(img, ws));
  }

  /** recover_from_log on a fresh cache: exactly the writes of RedoLog.RecoveryWrites. */
  method Recover(bc: Bcache, a: Area) returns (ok: bool)
    requires bc.Valid() && InUse(bc.buf, {}, {}) && bc.Pinned() == {} && HasTwoFree(bc.buf, {})
    requires WellFormed(a, bc.disk.blocks)
    modifies bc, bc.disk
    ensures bc.Valid() && ok && InUse(bc.buf, {}, {}) && bc.Pinned() == {}
    ensures bc.disk.writes == old(bc.disk.writes) + RecoveryWrites(a, old(bc.disk.blocks))
    ensures bc.disk.blocks == Apply(old(bc.disk.blocks), RecoveryWrites(a, old(bc.disk.blocks)))
    ensures Clean(a, bc.disk.blocks) && HomeBlocks(a, bc.disk.blocks) == Durable(a, old(bc.disk.blocks))
  {
    hide Bcache.Valid, Bcache.Logical, Bcache.Pinned, Apply, Header, HomeBlocks, RecoveryWrites, InstallWrites, Durable;
    ghost var img := bc.disk.blocks;
    RecoveryImage(a, img);
    UnpinnedReadsDisk(bc, {});
    var r := ReadHead(bc, a, {});
    var lh := r.value;
    LogContentsOf(a, img, bc.Logical(), lh);
    ok := InstallTrans(bc, a, lh, {});
    ok := WriteHead(bc, a, [], {});
  }
}
