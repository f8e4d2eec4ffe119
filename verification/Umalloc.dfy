/** malloc, free and morecore of umalloc.c, over headers in memory. */
module Umalloc {
  import opened Blocks
  import opened FreeList

  const HEADER := 8
  const WORD := 0x1_0000_0000

  /** Header-sized units for a request, in the 32-bit arithmetic of malloc. */
  function Units(nbytes: nat): nat {
    (nbytes + HEADER - 1) % WORD / HEADER + 1
  }

  /** The payload behind the header holds the request exactly when the rounding does not wrap around. */
  lemma UnitsSuffice(nbytes: nat)
    requires nbytes < WORD
    ensures (Units(nbytes) - 1) * HEADER >= nbytes <==> nbytes <= WORD - HEADER
    ensures nbytes <= WORD - HEADER ==> (Units(nbytes) - 1) * HEADER < nbytes + HEADER
  {
  }

  /** The last seven sizes ask for the whole address space and get a payload of nothing. */
  lemma HugeRequestWraps(nbytes: nat)
    requires WORD - HEADER < nbytes < WORD
    ensures Units(nbytes) == 1
  {
  }

  function AtLeast4096(n: nat): nat {
    if n < 4096 then 4096 else n
  }

  /** The heap got n units more, the ones from `from` on. */
  ghost predicate GrewBy(units: set<int>, units': set<int>, from: int, n: nat) {
    && (forall u :: u in units' <==> u in units || from <= u < from + n)
    && |units' - units| == n
  }

  lemma {:induction false} RangeSize(b: int, n: nat)
    ensures |Range(b, n)| == n && forall u :: u in Range(b, n) <==> b <= u < b + n
  {
    assert forall u :: b <= u < b + n ==> Inside(u, b, n);
    if n > 0 {
      var m := n - 1;
      RangeSize(b, m);
      assert forall u :: b <= u < b + m ==> Inside(u, b, m);
      assert Range(b, n) == Range(b, m) + {b + m};
    }
  }

  lemma RangeAdds(units: set<int>, b: int, n: nat)
    requires forall u :: u in units ==> u < b
    ensures GrewBy(units, units + Range(b, n), b, n)
  {
    hide Range;
    RangeSize(b, n);
    var r := Range(b, n);
    forall u ensures u in units + r - units <==> u in r {
      assert u in r <==> b <= u < b + n;
    }
    assert units + r - units == r;
  }

  lemma GrownUnits(h: Heap, b: int, n: nat)
    requires forall u :: u in h.unit ==> u < b
    ensures GrewBy(h.unit.Keys, Grown(h, b, n).unit.Keys, b, n)
  {
    hide Range, GrewBy, WithZeroes;
    RangeAdds(h.unit.Keys, b, n);
    var more := map u | u in Range(b, n) :: b;
    assert more.Keys == Range(b, n);
    assert (h.unit + more).Keys == h.unit.Keys + Range(b, n);
  }

  /** The int that sbrk is passed for nu units: the product wraps at 32 bits and is read as signed. */
  function SbrkArg(nu: nat): (n: int)
    ensures 0 < n && nu <= WORD / HEADER ==> n == nu * HEADER
  {
    var bytes := nu * HEADER % WORD;
    if bytes < 0x8000_0000 then bytes else bytes - WORD
  }

  /** sbrk is asked for more memory exactly up to 2^31 - 16 bytes, and for the last seven sizes, whose rounding wraps to
      one unit; the eight sizes below these ask it for nothing. */
  lemma AsksForMemory(nbytes: nat)
    requires nbytes < WORD
    ensures Units(nbytes) <= WORD / HEADER
    ensures SbrkArg(AtLeast4096(Units(nbytes))) > 0 <==> nbytes <= 0x8000_0000 - 16 || nbytes > WORD - HEADER
    ensures SbrkArg(AtLeast4096(Units(nbytes))) == 0 <==> WORD - 2 * HEADER < nbytes <= WORD - HEADER
  {
  }

  /** A call that returns to its caller, a refusal, or the use of memory that sbrk has not given. */
  datatype Allocation = Block(addr: int) | Null | Outside

  /** The position v steps around a list of n elements after position f. */
  function Around(f: nat, v: nat, n: nat): (i: nat)
    requires f < n && v < n
    ensures i < n
  {
    if f + 1 + v < n then f + 1 + v else f + 1 + v - n
  }

  /** No free block has n units or more. */
  ghost predicate NoFit(h: Heap, n: nat) {
    forall k :: 0 <= k < |h.list| ==> Size(h, h.list[k]) < n
  }

  ghost predicate TooSmall(h: Heap, f: nat, w: nat, n: nat)
    requires f < |h.list| && w < |h.list|
  {
    Size(h, h.list[Around(f, w, |h.list|)]) < n
  }

  /** malloc's walk is v steps past freep, at p, having found the v blocks before p too small. */
  ghost predicate Walking(h: Heap, freep: int, f: nat, v: nat, prevp: int, p: int, n: nat) {
    && f < |h.list| && h.list[f] == freep && v < |h.list|
    && p == h.list[Around(f, v, |h.list|)]
    && prevp == (if v == 0 then freep else h.list[Around(f, v - 1, |h.list|)])
    && forall w :: 0 <= w < v ==> TooSmall(h, f, w, n)
  }

  lemma WalkStart(h: Heap, freep: int, n: nat) returns (f: nat)
    requires Inv(h) && freep in h.list
    ensures freep in h.mem && Walking(h, freep, f, 0, freep, h.mem[freep].ptr, n)
  {
    f :| f < |h.list| && h.list[f] == freep;
    assert Points(h, f);
  }

  lemma WalkBound(h: Heap, freep: int, f: nat, v: nat, prevp: int, p: int, n: nat)
    requires Inv(h) && Walking(h, freep, f, v, prevp, p, n)
    ensures v < |h.list| && p in h.mem
  {
  }

  lemma WalkStep(h: Heap, freep: int, f: nat, v: nat, prevp: int, p: int, n: nat)
    requires Inv(h) && Walking(h, freep, f, v, prevp, p, n) && p in h.mem && h.mem[p].size < n && p != freep
    ensures Walking(h, freep, f, v + 1, p, h.mem[p].ptr, n)
  {
    assert Points(h, Around(f, v, |h.list|));
    assert TooSmall(h, f, v, n);
  }

  /** Back at freep with nothing found, the walk has seen every block. */
  lemma WalkEnds(h: Heap, freep: int, f: nat, v: nat, prevp: int, p: int, n: nat)
    requires Inv(h) && Walking(h, freep, f, v, prevp, p, n) && p == freep && Size(h, p) < n
    ensures NoFit(h, n)
  {
    assert v == |h.list| - 1;
    forall k | 0 <= k < |h.list| ensures Size(h, h.list[k]) < n {
      var w := if k > f then k - f - 1 else k - f - 1 + |h.list|;
      assert k == Around(f, w, |h.list|);
      assert w < v ==> TooSmall(h, f, w, n);
    }
  }

  lemma WalkFits(h: Heap, freep: int, f: nat, v: nat, prevp: int, p: int, n: nat) returns (k: nat)
    requires Inv(h) && Walking(h, freep, f, v, prevp, p, n) && Size(h, p) >= n > 0
    ensures 0 < k < |h.list| && h.list[k - 1] == prevp && h.list[k] == p && !NoFit(h, n)
  {
    k := Around(f, v, |h.list|);
  }

  lemma UndisturbedTwice(h: Heap, h1: Heap, h2: Heap)
    requires Undisturbed(h, h1) && Undisturbed(h1, h2) && h1.live == h.live
    ensures Undisturbed(h, h2)
  {
  }

  lemma FindPlace(h: Heap, b: int) returns (k: nat)
    requires Linked(h) && b > h.base && b !in h.list
    ensures Place(h, k, b)
  {
    k := 0;
    while k + 1 < |h.list| && h.list[k + 1] < b
      invariant k < |h.list| && h.list[k] < b
    {
      k := k + 1;
    }
  }

  /** A sorted list without repetition has one place for b. */
  lemma OnePlace(h: Heap, j: nat, k: nat, b: int)
    requires Linked(h) && Place(h, j, b) && Place(h, k, b)
    ensures j == k
  {
  }

  /** Whatever it was merged with, the freed block is large enough to be handed out again. */
  lemma FreedFits(h: Heap, k: nat, b: int)
    requires Inv(h) && b in h.live && Place(h, k, b)
    ensures !NoFit(Freed(h, k, b), h.live[b])
  {
    InsertShape(h, k, b);
    RaiseShape(h, k, b);
    var h' := Freed(h, k, b);
    if h.list[k] + Size(h, h.list[k]) == b {
      assert h'.list[k] == h.list[k] && Size(h', h'.list[k]) >= Size(h, b);
    } else {
      assert h'.list[k + 1] == b && Size(h', h'.list[k + 1]) >= Size(h, b);
    }
  }

  lemma UnlinkMem(h: Heap, k: nat)
    requires Linked(h) && 0 < k < |h.list|
    ensures Unlinked(h, k).mem == h.mem[h.list[k - 1] := Header(h.mem[h.list[k]].ptr, h.mem[h.list[k - 1]].size)]
    ensures Unlinked(h, k).live == h.live[h.list[k] := Size(h, h.list[k])]
    ensures Unlinked(h, k).unit == h.unit && Unlinked(h, k).base == h.base && h.list[k - 1] >= h.base
  {
  }

  lemma SameUndisturbed(h: Heap)
    ensures Undisturbed(h, h)
  {
  }

  lemma FitsLess(h: Heap, m: nat, n: nat)
    requires m <= n && !NoFit(h, n)
    ensures !NoFit(h, m)
  {
  }

  lemma GrownLive(h: Heap, b: int, n: nat)
    requires Inv(h) && n > 0 && b > h.base && forall u :: u in h.unit ==> u < b
    ensures b !in h.live && Grown(h, b, n).live == h.live[b := n]
  {
    GrowKeepsInv(h, b, n);
  }

  /** Growing and then freeing the new block leaves the blocks handed out as they were. */
  lemma GrownThenFreed(h: Heap, h1: Heap, h2: Heap, b: int, n: nat)
    requires Inv(h) && n > 0 && b > h.base && forall u :: u in h.unit ==> u < b
    requires h1 == Grown(h, b, n) && Undisturbed(h1, h2) && h2.live == h1.live - {b}
    ensures h2.live == h.live && Undisturbed(h, h2)
  {
    hide Inv, Grown, Head;
    GrowKeepsInv(h, b, n);
    GrownLive(h, b, n);
    forall u | u in h.unit && h.unit[u] in h.live
      ensures u in h2.unit && h2.unit[u] == h.unit[u] && Head(h2, u) == Head(h, u)
    {
      assert u in h1.unit && h1.unit[u] == h.unit[u];
    }
  }

  /** The header of b after the first half of free. */
  ghost function RaisedHeader(h: Heap, k: nat, b: int): Header
    requires k < |h.list|
  {
    var q := Head(h, h.list[k]).ptr;
    if b + Size(h, b) == q then Header(Head(h, q).ptr, Size(h, b) + Size(h, q)) else Header(q, Size(h, b))
  }

  lemma RaisedMem(h: Heap, k: nat, b: int)
    requires Linked(h) && Tiled(h) && b in h.live && Place(h, k, b)
    ensures Raised(h, k, b).mem == h.mem[b := RaisedHeader(h, k, b)][h.list[k] := Header(b, Size(h, h.list[k]))]
    ensures b + Size(h, b) == Head(h, h.list[k]).ptr ==> k + 1 < |h.list| && Head(h, h.list[k]).ptr == h.list[k + 1]
  {
    LiveApart(h, b);
    hide Tiled;
    assert Points(h, k);
    assert k + 1 < |h.list| ==> h.list[k] < h.list[k + 1];
    InsertShape(h, k, b);
  }

  /** free's stores, in its own order, make the inserted and merged list. */
  lemma SpliceIsFreed(h: Heap, k: nat, b: int)
    requires Inv(h) && b in h.live && Place(h, k, b)
    ensures h.list[k] in h.mem && b in h.mem && h.list[k] != b
    ensures var p, q, hb := h.list[k], h.mem[h.list[k]].ptr, RaisedHeader(h, k, b);
      && (b + h.mem[b].size == q ==> q in h.mem && hb == Header(h.mem[q].ptr, h.mem[b].size + h.mem[q].size))
      && (b + h.mem[b].size != q ==> hb == Header(q, h.mem[b].size))
      && Freed(h, k, b).mem == h.mem[b := hb][p := if p + h.mem[p].size == b then Header(hb.ptr, h.mem[p].size + hb.size)
                                                   else Header(b, h.mem[p].size)]
  {
    hide Tiled, Raised;
    LiveApart(h, b);
    RaiseShape(h, k, b);
    RaisedMem(h, k, b);
  }

  class Allocator {
    const base: int
    var mem: map<int, Header>
    var freep: int  // 0 before the first malloc
    ghost var list: seq<int>
    ghost var live: map<int, nat>
    ghost var unit: map<int, int>

    ghost function H(): Heap
      reads this
    {
      Heap(base, mem, list, live, unit)
    }

    ghost predicate Valid()
      reads this
    {
      && base > 0
      && (freep == 0 ==> list == [] && live == map[] && unit == map[])
      && (freep != 0 ==> Inv(H()) && freep in list)
    }

    constructor (base: int)
      requires base > 0
      ensures Valid() && live == map[] && unit == map[] && this.base == base && freep == 0
    {
      this.base := base;
      mem := map[base := Header(0, 0)];
      freep := 0;
      list, live, unit := [], map[], map[];
    }

    ghost method Become(h: Heap)
      requires h.base == base && h.mem == mem
      modifies `list, `live, `unit
      ensures H() == h
    {
      list, live, unit := h.list, h.live, h.unit;
    }

    /** The search of free: the list position after which b belongs, reached from wherever freep points. */
    method Search(b: int) returns (p: int, ghost k: nat)
      requires freep != 0 && Valid() && b in live
      ensures Place(H(), k, b) && p == list[k] && p >= base
    {
      ghost var h := H();
      AboveBase(h, b);
      k := FindPlace(h, b);
      p := freep;
      ghost var j: nat :| j < |list| && list[j] == freep;
      while !(b > p && b < mem[p].ptr)
        invariant j < |list| && p == list[j] && p in mem
        decreases if j <= k then k - j else |list| - j + k
      {
        assert Points(h, j);
        if p >= mem[p].ptr && (b > p || b < mem[p].ptr) {
          break;
        }
        p := mem[p].ptr;
        j := if j + 1 < |list| then j + 1 else 0;
      }
      assert Points(h, j);
      OnePlace(h, j, k, b);
    }
  
    /** Where free leaves the list, written to memory in free's own order. */
    method Splice(b: int, p: int, ghost k: nat)
      requires freep != 0 && Valid() && b in live && Place(H(), k, b) && p == list[k]
      modifies `mem
      ensures mem == Freed(old(H()), k, b).mem
    {
      hide Inv, Freed;
      SpliceIsFreed(H(), k, b);
      var q := mem[p].ptr;
      if b + mem[b].size == q {
        mem := mem[b := Header(mem[q].ptr, mem[b].size + mem[q].size)];
      } else {
        mem := mem[b := Header(q, mem[b].size)];
      }
      if p + mem[p].size == b {
        mem := mem[p := Header(mem[b].ptr, mem[p].size + mem[b].size)];
      } else {
        mem := mem[p := Header(b, mem[p].size)];
      }
    }

    /** free: exactly this block stops being live, no unit is lost, no other block handed out is written. */
    method Free(ap: int)
      requires Valid() && ap - 1 in live
      modifies this
      ensures Valid() && freep != 0
      ensures live == old(live) - {ap - 1} && unit.Keys == old(unit.Keys)
      ensures Undisturbed(old(H()), H()) && !NoFit(H(), old(live[ap - 1]))
    {
      hide Inv, Freed;
      ghost var h := H();
      var b := ap - 1;
      var p, k := Search(b);
      Splice(b, p, k);
      FreeKeepsInv(h, k, b);
      FreeDisturbsNothing(h, k, b);
      FreedFits(h, k, b);
      freep := p;
      Become(Freed(h, k, b));
    }
  
    /** What sbrk promises: fresh memory above everything it gave out before. */
    ghost predicate Fresh(brk: Option<int>)
      reads this
    {
      brk.Some? ==> brk.value > base && forall u :: u in unit ==> u < brk.value
    }

    method Sbrk(hp: int, n: nat)
      requires Valid() && freep != 0 && Fresh(Some(hp)) && n > 0
      modifies this
      ensures Valid() && freep == old(freep) && H() == Grown(old(H()), hp, n)
    {
      hide Inv;
      GrowKeepsInv(H(), hp, n);
      ghost var h := Grown(H(), hp, n);
      mem := WithZeroes(mem, hp, n);
      mem := mem[hp := Header(0, n)];
      Become(h);
    }

    /** morecore: at least 4096 units from sbrk, put on the free list by free. `brk` is sbrk's answer. When the request
        has become zero or negative, success gives no memory or takes memory away, and morecore's header goes outside
        what it has; nothing is said of the heap then. */
    method Morecore(nu: nat, brk: Option<int>) returns (r: Allocation)
      requires Valid() && freep != 0 && 0 < nu <= WORD / HEADER && (SbrkArg(AtLeast4096(nu)) > 0 ==> Fresh(brk))
      modifies this
      ensures r == Null <==> brk.None?
      ensures r == Outside <==> brk.Some? && SbrkArg(AtLeast4096(nu)) <= 0
      ensures r != Outside ==> Valid() && freep != 0 && live == old(live) && Undisturbed(old(H()), H())
      ensures r.Block? ==> GrewBy(old(unit.Keys), unit.Keys, brk.value, if nu < 4096 then 4096 else nu)
      ensures r.Block? ==> r.addr == freep && !NoFit(H(), nu)
      ensures r == Null ==> H() == old(H()) && freep == old(freep)
    {
      hide Inv, Grown, Undisturbed, NoFit, GrewBy;
      SameUndisturbed(H());
      if brk.None? {
        return Null;
      }
      var n, hp := AtLeast4096(nu), brk.value;
      if SbrkArg(n) <= 0 {
        return Outside;
      }
      ghost var h := H();
      GrownLive(h, hp, n);
      GrownUnits(h, hp, n);
      Sbrk(hp, n);
      ghost var h1 := H();
      Free(hp + 1);
      GrownThenFreed(h, h1, H(), hp, n);
      FitsLess(H(), nu, n);
      r := Block(freep);
    }

    method TakeAll(prevp: int, p: int, ghost k: nat)
      requires Valid() && freep != 0 && 0 < k < |list| && list[k - 1] == prevp && list[k] == p
      modifies this
      ensures Valid() && freep == prevp != 0 && p !in old(live) && live == old(live)[p := Size(old(H()), p)]
      ensures unit == old(unit) && Undisturbed(old(H()), H())
    {
      hide Tiled, Undisturbed, Unlinked;
      ghost var h := H();
      UnlinkKeepsInv(h, k);
      UnlinkMem(h, k);
      mem := mem[prevp := Header(mem[p].ptr, mem[prevp].size)];
      Become(Unlinked(h, k));
      freep := prevp;
    }

    method TakeTail(prevp: int, p: int, n: nat, ghost k: nat) returns (b: int)
      requires Valid() && freep != 0 && 0 < k < |list| && list[k - 1] == prevp && list[k] == p
      requires 0 < n < Size(H(), p)
      modifies this
      ensures Valid() && freep == prevp != 0 && b !in old(live) && live == old(live)[b := n]
      ensures unit.Keys == old(unit.Keys) && Undisturbed(old(H()), H())
    {
      hide Tiled, IsBlock, Undisturbed;
      ghost var h := H();
      TailShape(h, k, n);
      TailKeepsInv(h, k, n);
      mem := mem[p := Header(mem[p].ptr, mem[p].size - n)];
      b := p + mem[p].size;
      mem := mem[b := Header(mem[b].ptr, n)];
      Become(Tail(h, k, n));
      freep := prevp;
    }

    /** malloc's first call makes base a list of one empty block. */
    method Init(n: nat)
      requires Valid() && n > 0
      modifies this
      ensures Valid() && freep != 0 && live == old(live) && unit == old(unit) && Undisturbed(old(H()), H())
      ensures NoFit(H(), n) <==> old(NoFit(H(), n))
    {
      if freep == 0 {
        mem := mem[base := Header(base, 0)];
        freep := base;
        list := [base];
        assert Points(H(), 0);
      }
    }
  
    /** One turn of malloc's walk: p fits, so it or its tail is handed out. */
    method Take(prevp: int, p: int, n: nat, ghost k: nat) returns (b: int)
      requires Valid() && freep != 0 && 0 < k < |list| && list[k - 1] == prevp && list[k] == p
      requires 0 < n <= Size(H(), p)
      modifies this
      ensures Valid() && freep != 0 && b !in old(live) && live == old(live)[b := n]
      ensures unit.Keys == old(unit.Keys) && Undisturbed(old(H()), H())
    {
      hide Tiled, Undisturbed;
      if mem[p].size == n {
        TakeAll(prevp, p, k);
        b := p;
      } else {
        b := TakeTail(prevp, p, n, k);
      }
    }

    /** malloc: a block of the rounded size that was not in use, without disturbing any block in use. sbrk is asked,
        once, only if nothing on the free list fits, and malloc fails only if sbrk then does. If sbrk has been asked for
        nothing or less, nothing is said of the heap. */
    method Malloc(nbytes: nat, brk: Option<int>) returns (r: Allocation)
      requires Valid() && nbytes < WORD && (SbrkArg(AtLeast4096(Units(nbytes))) > 0 ==> Fresh(brk))
      modifies this
      ensures r == Null <==> old(NoFit(H(), Units(nbytes))) && brk.None?
      ensures r == Outside <==> old(NoFit(H(), Units(nbytes))) && brk.Some? && 0x8000_0000 - 16 < nbytes <= WORD - HEADER
      ensures r.Block? ==> r.addr - 1 !in old(live) && live == old(live)[r.addr - 1 := Units(nbytes)]
      ensures r == Null ==> live == old(live)
      ensures r != Outside ==> Valid() && Undisturbed(old(H()), H())
      ensures r == Null || (r.Block? && !old(NoFit(H(), Units(nbytes)))) ==> unit.Keys == old(unit.Keys)
      ensures r.Block? && old(NoFit(H(), Units(nbytes))) ==>
        GrewBy(old(unit.Keys), unit.Keys, brk.value, if Units(nbytes) < 4096 then 4096 else Units(nbytes))
    {
      hide Inv, NoFit, Undisturbed, Walking, GrewBy;
      var nunits := Units(nbytes);
      AsksForMemory(nbytes);
      Init(nunits);
      ghost var h := H();
      ghost var f := WalkStart(h, freep, nunits);
      ghost var v := 0;
      ghost var grown := false;
      var prevp := freep;
      var p := mem[prevp].ptr;
      while true
        invariant Valid() && freep != 0
        invariant Walking(H(), freep, f, v, prevp, p, nunits)
        invariant !grown ==> H() == h
        invariant grown ==> NoFit(h, nunits) && brk.Some? && SbrkArg(AtLeast4096(nunits)) > 0 && !NoFit(H(), nunits)
        invariant live == h.live && Undisturbed(old(H()), H())
        invariant !grown ==> unit.Keys == h.unit.Keys
        invariant grown ==> GrewBy(h.unit.Keys, unit.Keys, brk.value, if nunits < 4096 then 4096 else nunits)
        decreases if grown then 0 else 1, |list| - v
      {
        WalkBound(H(), freep, f, v, prevp, p, nunits);
        if mem[p].size >= nunits {
          ghost var k := WalkFits(H(), freep, f, v, prevp, p, nunits);
          ghost var h1 := H();
          var b := Take(prevp, p, nunits, k);
          UndisturbedTwice(old(H()), h1, H());
          return Block(b + 1);
        }
        if p == freep {
          WalkEnds(H(), freep, f, v, prevp, p, nunits);
          ghost var h1 := H();
          var more := Morecore(nunits, brk);
          if more == Outside {
            return Outside;
          }
          UndisturbedTwice(old(H()), h1, H());
          if more == Null {
            return Null;
          }
          grown := true;
          f := WalkStart(H(), freep, nunits);
          v := 0;
          p := more.addr;
        } else {
          WalkStep(H(), freep, f, v, prevp, p, nunits);
          v := v + 1;
        }
        prevp := p;
        p := mem[p].ptr;
      }
    }
  }
}
