/** The state of the K&R allocator (umalloc.c; section 8.7 of The C Programming Language, 2nd edition) as values:
    headers by address, the circular free list, the blocks handed out, and which block each unit of the memory
    obtained from sbrk belongs to. Addresses count in units of one header. */
module FreeList {

  datatype Header = Header(ptr: int, size: nat)

  /** `list` is the free list in address order from the static header `base`; `live` the blocks handed out;
      `unit` maps every unit obtained from sbrk to the block it lies in. */
  datatype Heap = Heap(base: int, mem: map<int, Header>, list: seq<int>, live: map<int, nat>, unit: map<int, int>)

  ghost function Head(h: Heap, a: int): Header {
    if a in h.mem then h.mem[a] else Header(0, 0)
  }

  ghost function Size(h: Heap, a: int): nat {
    Head(h, a).size
  }

  ghost predicate Sorted(s: seq<int>) {
    forall i, j :: 0 <= i < j < |s| ==> s[i] < s[j]
  }

  ghost function Next(h: Heap, k: nat): int
    requires k < |h.list|
  {
    if k + 1 < |h.list| then h.list[k + 1] else h.base
  }

  ghost predicate Points(h: Heap, k: nat)
    requires k < |h.list|
  {
    Head(h, h.list[k]).ptr == Next(h, k)
  }

  /** The list is circular, in address order, with its single wrap from the highest block back to base. */
  ghost predicate Linked(h: Heap) {
    && |h.list| > 0 && h.list[0] == h.base && Sorted(h.list)
    && (forall k :: 0 <= k < |h.list| ==> h.list[k] in h.mem)
    && (forall k :: 0 <= k < |h.list| ==> Points(h, k))
    && Size(h, h.base) == 0
  }

  /** a is a block of the heap: free (and not base) or handed out. */
  ghost predicate IsBlock(h: Heap, a: int) {
    a in h.live || (a in h.list && a != h.base)
  }

  /** Every unit of block a belongs to a. */
  ghost predicate Covers(h: Heap, a: int) {
    forall u :: a <= u < a + Size(h, a) ==> u in h.unit && h.unit[u] == a
  }

  /** Unit u lies inside the block it belongs to. */
  ghost predicate Within(h: Heap, u: int)
    requires u in h.unit
  {
    u in h.mem && u > h.base && IsBlock(h, h.unit[u]) && h.unit[u] <= u < h.unit[u] + Size(h, h.unit[u])
  }

  /** The blocks are disjoint and together tile the units: unit and block determine each other. */
  ghost predicate Tiled(h: Heap) {
    && (forall a :: a in h.live ==> a !in h.list && Size(h, a) == h.live[a])
    && (forall a :: IsBlock(h, a) ==> Size(h, a) > 0 && Covers(h, a))
    && (forall u :: u in h.unit ==> Within(h, u))
  }

  ghost predicate Gap(h: Heap, k: nat) {
    k + 1 < |h.list| ==> h.list[k] + Size(h, h.list[k]) < h.list[k + 1]
  }

  /** No free block ends where the next one begins, except possibly at the listed positions. */
  ghost predicate Coalesced(h: Heap, except: set<nat>) {
    forall k :: 0 <= k < |h.list| && k !in except ==> Gap(h, k)
  }

  ghost predicate Inv(h: Heap) {
    Linked(h) && Tiled(h) && Coalesced(h, {})
  }

  /** Of two blocks the lower one ends before the higher one begins. */
  lemma Apart(h: Heap, a: int, b: int)
    requires Tiled(h) && IsBlock(h, a) && IsBlock(h, b) && a < b
    ensures a + Size(h, a) <= b
  {
    assert Covers(h, a) && Covers(h, b);
    assert h.unit[b] == b;
  }

  lemma AboveBase(h: Heap, a: int)
    requires Tiled(h) && IsBlock(h, a)
    ensures a > h.base
  {
    assert Covers(h, a);
    assert a in h.unit && Within(h, a);
  }

  // ---- inserting a block that was handed out ----

  function InsertAt(s: seq<int>, k: nat, x: int): seq<int>
    requires k <= |s|
  {
    s[..k] + [x] + s[k..]
  }

  function RemoveAt(s: seq<int>, k: nat): seq<int>
    requires k < |s|
  {
    s[..k] + s[k + 1..]
  }

  /** Block b becomes the list's element after list[k]. */
  ghost function Inserted(h: Heap, k: nat, b: int): Heap
    requires k < |h.list|
  {
    var mem1 := h.mem[b := Header(Next(h, k), Size(h, b))];
    var mem2 := mem1[h.list[k] := Header(b, Size(h, h.list[k]))];
    Heap(h.base, mem2, InsertAt(h.list, k + 1, b), h.live - {b}, h.unit)
  }

  /** Where b belongs: above list[k] and below its successor, if there is one. */
  ghost predicate Place(h: Heap, k: nat, b: int) {
    k < |h.list| && h.list[k] < b && (k + 1 < |h.list| ==> b < h.list[k + 1])
  }

  lemma LiveApart(h: Heap, b: int)
    requires Linked(h) && Tiled(h) && b in h.live
    ensures b > h.base && b !in h.list && b in h.mem
  {
    AboveBase(h, b);
    assert IsBlock(h, b) && Covers(h, b) && Within(h, b);
  }

  lemma InsertSorted(s: seq<int>, k: nat, b: int)
    requires Sorted(s) && 0 < k <= |s| && s[k - 1] < b && (k < |s| ==> b < s[k])
    ensures Sorted(InsertAt(s, k, b))
  {
  }

  lemma InsertKeepsLinks(h: Heap, k: nat, b: int)
    requires Linked(h) && Tiled(h) && b in h.live && Place(h, k, b)
    ensures Linked(Inserted(h, k, b))
  {
    hide Tiled;
    var h' := Inserted(h, k, b);
    LiveApart(h, b);
    InsertSorted(h.list, k + 1, b);
    forall j: nat | j < |h'.list| ensures Points(h', j) {
      assert j < k ==> h'.list[j] == h.list[j] && Points(h, j);
      assert j > k + 1 ==> h'.list[j] == h.list[j - 1] && Points(h, j - 1);
    }
  }

  lemma InsertKeepsTiles(h: Heap, k: nat, b: int)
    requires Linked(h) && Tiled(h) && b in h.live && Place(h, k, b)
    ensures Tiled(Inserted(h, k, b))
  {
    var h' := Inserted(h, k, b);
    AboveBase(h, b);
    assert forall a :: a in h'.list <==> a in h.list || a == b by { InsertElements(h.list, k + 1, b); }
    assert forall a :: IsBlock(h', a) <==> IsBlock(h, a);
    assert forall a :: Size(h', a) == Size(h, a);
  }

  lemma InsertElements(s: seq<int>, k: nat, x: int)
    requires k <= |s|
    ensures forall a :: a in InsertAt(s, k, x) <==> a in s || a == x
  {
    assert s == s[..k] + s[k..];
  }

  /** After the insertion only the two new boundaries may need coalescing. */
  lemma InsertNearlyCoalesced(h: Heap, k: nat, b: int)
    requires Inv(h) && b in h.live && Place(h, k, b)
    ensures Coalesced(Inserted(h, k, b), {k, k + 1})
  {
    var h' := Inserted(h, k, b);
    assert forall a :: Size(h', a) == Size(h, a);
    forall j: nat | j < |h'.list| && j !in {k, k + 1} ensures Gap(h', j) {
      assert j < k ==> h'.list[j] == h.list[j] && Gap(h, j);
      assert j > k ==> h'.list[j] == h.list[j - 1] && Gap(h, j - 1);
    }
  }

  // ---- merging two adjacent free blocks ----

  /** list[k] swallows list[k + 1]. */
  ghost function Merged(h: Heap, k: nat): Heap
    requires k + 1 < |h.list|
  {
    var a, b := h.list[k], h.list[k + 1];
    Heap(h.base, h.mem[a := Header(Head(h, b).ptr, Size(h, a) + Size(h, b))], RemoveAt(h.list, k + 1), h.live,
         map u | u in h.unit :: if h.unit[u] == b then a else h.unit[u])
  }

  lemma MergeKeepsLinks(h: Heap, k: nat)
    requires Linked(h) && 0 < k && k + 1 < |h.list|
    ensures Linked(Merged(h, k))
  {
    var h' := Merged(h, k);
    forall j: nat | j < |h'.list| ensures Points(h', j) {
      assert j < k ==> h'.list[j] == h.list[j] && Points(h, j);
      assert j >= k ==> Points(h, j + 1);
      assert j > k ==> h'.list[j] == h.list[j + 1];
    }
  }

  lemma MergeShape(h: Heap, k: nat)
    requires Linked(h) && 0 < k && k + 1 < |h.list| && Tiled(h)
    ensures forall x :: x in Merged(h, k).list <==> x in h.list && x != h.list[k + 1]
    ensures forall x :: IsBlock(Merged(h, k), x) <==> IsBlock(h, x) && x != h.list[k + 1]
    ensures forall x :: x != h.list[k] ==> Size(Merged(h, k), x) == Size(h, x)
    ensures Size(Merged(h, k), h.list[k]) == Size(h, h.list[k]) + Size(h, h.list[k + 1])
    ensures IsBlock(h, h.list[k]) && IsBlock(h, h.list[k + 1]) && h.list[k] < h.list[k + 1]
  {
    RemoveElements(h.list, k + 1);
    assert h.list[k + 1] !in h.live;
  }

  lemma MergeKeepsTiles(h: Heap, k: nat)
    requires Linked(h) && Tiled(h) && 0 < k && k + 1 < |h.list| && h.list[k] + Size(h, h.list[k]) == h.list[k + 1]
    ensures Tiled(Merged(h, k))
  {
    hide Linked, IsBlock, Size;
    var h' := Merged(h, k);
    var a, b := h.list[k], h.list[k + 1];
    MergeShape(h, k);
    forall x | IsBlock(h', x) ensures Size(h', x) > 0 && Covers(h', x) {
      assert Covers(h, x) && Covers(h, b);
    }
    forall u | u in h'.unit ensures Within(h', u) {
      assert Within(h, u);
    }
    forall x | x in h'.live ensures x !in h'.list && Size(h', x) == h'.live[x] {
      assert x != a;
    }
  }

  lemma RemoveElements(s: seq<int>, k: nat)
    requires k < |s| && Sorted(s)
    ensures forall a :: a in RemoveAt(s, k) <==> a in s && a != s[k]
  {
    forall a | a in s && a != s[k] ensures a in RemoveAt(s, k) {
      var i :| 0 <= i < |s| && s[i] == a;
      assert a == if i < k then RemoveAt(s, k)[i] else RemoveAt(s, k)[i - 1];
    }
  }

  /** The merged block ends where the block it swallowed ended, so no new adjacency appears. */
  lemma MergeKeepsGaps(h: Heap, k: nat, except: set<nat>)
    requires Linked(h) && Tiled(h) && 0 < k && k + 1 < |h.list| && h.list[k] + Size(h, h.list[k]) == h.list[k + 1]
    requires except <= {k - 1, k} && Coalesced(h, except)
    ensures Coalesced(Merged(h, k), except - {k})
  {
    hide Tiled, Size, IsBlock;
    var h' := Merged(h, k);
    MergeShape(h, k);
    forall j: nat | j < |h'.list| && j !in except - {k} ensures Gap(h', j) {
      assert j < k ==> h'.list[j] == h.list[j] && Gap(h, j) && h.list[j] < h.list[k];
      assert j >= k ==> Gap(h, j + 1) && h.list[k] < h.list[j + 1];
      assert j > k ==> h'.list[j] == h.list[j + 1];
    }
  }

  // ---- the whole of free ----

  lemma InsertShape(h: Heap, k: nat, b: int)
    requires k < |h.list| && h.list[k] != b
    ensures |Inserted(h, k, b).list| == |h.list| + 1
    ensures Inserted(h, k, b).list[k] == h.list[k] && Inserted(h, k, b).list[k + 1] == b
    ensures k + 1 < |h.list| ==> Inserted(h, k, b).list[k + 2] == h.list[k + 1]
    ensures forall a :: Size(Inserted(h, k, b), a) == Size(h, a)
  {
  }

  /** Insert b, and merge it with its upper neighbour if the two touch. */
  ghost function Raised(h: Heap, k: nat, b: int): Heap
    requires k < |h.list|
  {
    var h1 := Inserted(h, k, b);
    if k + 1 < |h.list| && b + Size(h, b) == h.list[k + 1] then Merged(h1, k + 1) else h1
  }

  lemma RaiseShape(h: Heap, k: nat, b: int)
    requires k < |h.list| && h.list[k] != b
    ensures k + 1 < |Raised(h, k, b).list| && Raised(h, k, b).list[k] == h.list[k] && Raised(h, k, b).list[k + 1] == b
    ensures Size(Raised(h, k, b), h.list[k]) == Size(h, h.list[k])
    ensures Raised(h, k, b).live == h.live - {b} && Raised(h, k, b).unit.Keys == h.unit.Keys
    ensures Raised(h, k, b).base == h.base
  {
    InsertShape(h, k, b);
  }

  /** What free makes of the heap: insert, then merge upwards, then merge downwards. */
  ghost function Freed(h: Heap, k: nat, b: int): Heap
    requires k < |h.list| && h.list[k] != b
  {
    RaiseShape(h, k, b);
    if h.list[k] + Size(h, h.list[k]) == b then Merged(Raised(h, k, b), k) else Raised(h, k, b)
  }

  lemma RaiseKeepsInv(h: Heap, k: nat, b: int)
    requires Inv(h) && b in h.live && Place(h, k, b)
    ensures Linked(Raised(h, k, b)) && Tiled(Raised(h, k, b)) && Coalesced(Raised(h, k, b), {k})
  {
    hide Linked, Tiled, Size, Inserted, Merged;
    var h1 := Inserted(h, k, b);
    InsertShape(h, k, b);
    InsertKeepsLinks(h, k, b);
    InsertKeepsTiles(h, k, b);
    InsertNearlyCoalesced(h, k, b);
    if k + 1 < |h.list| {
      BlockInList(h, k + 1);
      Apart(h, b, h.list[k + 1]);
      if b + Size(h, b) == h.list[k + 1] {
        MergeKeepsLinks(h1, k + 1);
        MergeKeepsTiles(h1, k + 1);
        MergeKeepsGaps(h1, k + 1, {k, k + 1});
        assert {k, k + 1} - {k + 1} == {k};
      }
    }
  }

  lemma BlockInList(h: Heap, k: nat)
    requires Linked(h) && 0 < k < |h.list|
    ensures IsBlock(h, h.list[k])
  {
  }

  /** free keeps the invariant, takes exactly b from the blocks handed out, and loses no unit. */
  lemma FreeKeepsInv(h: Heap, k: nat, b: int)
    requires Inv(h) && b in h.live && Place(h, k, b)
    ensures Inv(Freed(h, k, b))
    ensures Freed(h, k, b).live == h.live - {b} && Freed(h, k, b).unit.Keys == h.unit.Keys
    ensures h.list[k] in Freed(h, k, b).list && Freed(h, k, b).base == h.base
  {
    hide Linked, Tiled, Size, Raised;
    var h2 := Raised(h, k, b);
    RaiseShape(h, k, b);
    RaiseKeepsInv(h, k, b);
    if h.list[k] + Size(h, h.list[k]) == b {
      BaseIsEmpty(h, b);
      MergeKeepsLinks(h2, k);
      MergeKeepsTiles(h2, k);
      MergeKeepsGaps(h2, k, {k});
      assert {k} - {k} == {};
      assert Merged(h2, k).list[k] == h.list[k];
    } else {
      if k > 0 {
        BlockInList(h, k);
        Apart(h, h.list[k], b);
      } else {
        BaseIsEmpty(h, b);
      }
      assert Gap(h2, k);
    }
  }

  lemma BaseIsEmpty(h: Heap, b: int)
    requires Linked(h) && Tiled(h) && IsBlock(h, b)
    ensures h.list[0] + Size(h, h.list[0]) < b
  {
    AboveBase(h, b);
  }

  /** Blocks handed out before and after keep their units, and not one header-sized word of them is written. */
  ghost predicate Undisturbed(h: Heap, h': Heap) {
    forall u :: u in h.unit && h.unit[u] in h.live && h.unit[u] in h'.live ==>
      u in h'.unit && h'.unit[u] == h.unit[u] && Head(h', u) == Head(h, u)
  }

  lemma NotInLive(h: Heap, a: int, u: int)
    requires Linked(h) && Tiled(h) && a in h.list && u in h.unit && h.unit[u] in h.live
    ensures u != a && h.unit[u] != a
  {
    assert Within(h, u);
    assert a != h.base ==> IsBlock(h, a) && Covers(h, a);
  }

  lemma FreeDisturbsNothing(h: Heap, k: nat, b: int)
    requires Inv(h) && b in h.live && Place(h, k, b)
    ensures Undisturbed(h, Freed(h, k, b))
  {
    var h' := Freed(h, k, b);
    forall u | u in h.unit && h.unit[u] in h.live && h.unit[u] in h'.live
      ensures u in h'.unit && h'.unit[u] == h.unit[u] && Head(h', u) == Head(h, u)
    {
      NotInLive(h, h.list[k], u);
      assert Covers(h, b);
      if k + 1 < |h.list| {
        NotInLive(h, h.list[k + 1], u);
      }
    }
  }

  // ---- handing out a block ----

  /** An exact fit leaves the list whole. */
  ghost function Unlinked(h: Heap, k: nat): Heap
    requires 0 < k < |h.list|
  {
    var p, a := h.list[k - 1], h.list[k];
    Heap(h.base, h.mem[p := Header(Head(h, a).ptr, Size(h, p))], RemoveAt(h.list, k), h.live[a := Size(h, a)], h.unit)
  }

  lemma UnlinkKeepsLinks(h: Heap, k: nat)
    requires Linked(h) && 0 < k < |h.list|
    ensures Linked(Unlinked(h, k))
  {
    var h' := Unlinked(h, k);
    forall j: nat | j < |h'.list| ensures Points(h', j) {
      assert j < k ==> h'.list[j] == h.list[j] && Points(h, j);
      assert j >= k - 1 ==> Points(h, j + 1);
      assert j >= k ==> h'.list[j] == h.list[j + 1];
    }
  }

  lemma UnlinkKeepsInv(h: Heap, k: nat)
    requires Inv(h) && 0 < k < |h.list|
    ensures Inv(Unlinked(h, k)) && Undisturbed(h, Unlinked(h, k)) && h.list[k] !in h.live
    ensures h.list[k - 1] in Unlinked(h, k).list
  {
    var h' := Unlinked(h, k);
    UnlinkKeepsLinks(h, k);
    RemoveElements(h.list, k);
    assert forall a :: Size(h', a) == Size(h, a);
    assert forall a :: IsBlock(h', a) <==> IsBlock(h, a);
    forall a | IsBlock(h', a) ensures Size(h', a) > 0 && Covers(h', a) {
      assert Covers(h, a);
    }
    forall u | u in h'.unit ensures Within(h', u) {
      assert Within(h, u);
    }
    UnlinkKeepsGaps(h, k);
    forall u | u in h.unit && h.unit[u] in h.live ensures Head(h', u) == Head(h, u) {
      NotInLive(h, h.list[k - 1], u);
    }
    assert h'.list[k - 1] == h.list[k - 1];
  }

  lemma UnlinkKeepsGaps(h: Heap, k: nat)
    requires Inv(h) && 0 < k < |h.list|
    ensures Coalesced(Unlinked(h, k), {})
  {
    var h' := Unlinked(h, k);
    assert forall a :: Size(h', a) == Size(h, a);
    forall j: nat | j < |h'.list| ensures Gap(h', j) {
      assert j < k ==> h'.list[j] == h.list[j] && Gap(h, j);
      assert j >= k - 1 ==> Gap(h, j + 1);
      assert j >= k ==> h'.list[j] == h.list[j + 1];
    }
  }

  /** A larger block keeps its front and gives away its tail of n units. */
  ghost function Tail(h: Heap, k: nat, n: nat): Heap
    requires k < |h.list| && n <= Size(h, h.list[k])
  {
    var a := h.list[k];
    var b := a + Size(h, a) - n;
    var mem1 := h.mem[a := Header(Head(h, a).ptr, Size(h, a) - n)];
    Heap(h.base, mem1[b := Header(Head(h, b).ptr, n)], h.list, h.live[b := n],
         map u | u in h.unit :: if b <= u < b + n then b else h.unit[u])
  }

  /** The tail's header lies inside the block it is cut from, away from every other block. */
  lemma TailShape(h: Heap, k: nat, n: nat)
    requires Linked(h) && Tiled(h) && 0 < k < |h.list| && 0 < n < Size(h, h.list[k])
    ensures var b := h.list[k] + Size(h, h.list[k]) - n;
            && !IsBlock(h, b) && b != h.base && b !in h.list && b in h.mem
            && (forall x :: IsBlock(Tail(h, k, n), x) <==> IsBlock(h, x) || x == b)
            && (forall x :: x != b && x != h.list[k] ==> Head(Tail(h, k, n), x) == Head(h, x))
            && (forall u :: b <= u < b + n ==> u in h.unit && h.unit[u] == h.list[k])
  {
    var a := h.list[k];
    var b := a + Size(h, a) - n;
    BlockInList(h, k);
    assert Covers(h, a);
    assert h.unit[b] == a;
    assert IsBlock(h, b) ==> Covers(h, b);
    assert Within(h, b);
  }

  lemma TailCovers(h: Heap, k: nat, n: nat, x: int)
    requires Linked(h) && Tiled(h) && 0 < k < |h.list| && 0 < n < Size(h, h.list[k]) && IsBlock(Tail(h, k, n), x)
    ensures Size(Tail(h, k, n), x) > 0 && Covers(Tail(h, k, n), x)
  {
    hide Linked, IsBlock;
    var h' := Tail(h, k, n);
    var a := h.list[k];
    var b := a + Size(h, a) - n;
    TailShape(h, k, n);
    if x == b {
      assert Size(h', b) == n;
    } else {
      assert Covers(h, x);
      forall u | x <= u < x + Size(h', x) ensures u in h'.unit && h'.unit[u] == x {
        assert h.unit[u] == x && !(b <= u < b + n);
      }
    }
  }

  lemma TailKeepsTiles(h: Heap, k: nat, n: nat)
    requires Linked(h) && Tiled(h) && 0 < k < |h.list| && 0 < n < Size(h, h.list[k])
    ensures Tiled(Tail(h, k, n))
  {
    hide Linked, IsBlock, Covers;
    var h' := Tail(h, k, n);
    BlockInList(h, k);
    TailShape(h, k, n);
    forall x | IsBlock(h', x) ensures Size(h', x) > 0 && Covers(h', x) {
      TailCovers(h, k, n, x);
    }
    forall u | u in h'.unit ensures Within(h', u) {
      assert Within(h, u);
    }
  }

  lemma TailKeepsInv(h: Heap, k: nat, n: nat)
    requires Inv(h) && 0 < k < |h.list| && 0 < n < Size(h, h.list[k])
    ensures Inv(Tail(h, k, n)) && Undisturbed(h, Tail(h, k, n))
    ensures h.list[k] + Size(h, h.list[k]) - n !in h.live
  {
    hide Tiled, IsBlock;
    var h' := Tail(h, k, n);
    BlockInList(h, k);
    TailShape(h, k, n);
    TailKeepsTiles(h, k, n);
    TailKeepsRest(h, k, n);
    forall j: nat | j < |h'.list| ensures Points(h', j) {
      assert Points(h, j);
    }
    forall j: nat | j < |h'.list| ensures Gap(h', j) {
      assert Gap(h, j);
    }
    assert h.list[0] < h.list[k];
  }

  lemma TailKeepsRest(h: Heap, k: nat, n: nat)
    requires Linked(h) && Tiled(h) && 0 < k < |h.list| && 0 < n < Size(h, h.list[k])
    ensures Undisturbed(h, Tail(h, k, n)) && h.list[k] + Size(h, h.list[k]) - n !in h.live
  {
    TailShape(h, k, n);
    forall u | u in h.unit && h.unit[u] in h.live ensures u != h.list[k] && h.unit[u] != h.list[k] {
      NotInLive(h, h.list[k], u);
    }
  }

  // ---- growing the heap ----

  predicate Inside(u: int, b: int, n: nat) {
    b <= u < b + n
  }

  function Range(b: int, n: nat): set<int> {
    set u {:trigger Inside(u, b, n)} | b <= u < b + n && Inside(u, b, n)
  }

  function WithZeroes(mem: map<int, Header>, b: int, n: nat): map<int, Header> {
    mem + (map u | u in Range(b, n) :: Header(0, 0))
  }

  /** n units at address b, straight from sbrk, as a block handed out to morecore. */
  ghost function Grown(h: Heap, b: int, n: nat): Heap {
    Heap(h.base, WithZeroes(h.mem, b, n)[b := Header(0, n)], h.list, h.live[b := n], h.unit + (map u | u in Range(b, n) :: b))
  }

  /** Everything the heap knows lies below the fresh memory. */
  lemma BelowFresh(h: Heap, b: int)
    requires Linked(h) && Tiled(h) && b > h.base && forall u :: u in h.unit ==> u < b
    ensures forall x :: IsBlock(h, x) || x in h.list || x in h.live ==> x < b
  {
    forall x | IsBlock(h, x) || x in h.list || x in h.live ensures x < b {
      if x != h.base || x in h.live {
        assert IsBlock(h, x) && Covers(h, x);
        assert x in h.unit;
      }
    }
  }

  lemma GrowShape(h: Heap, b: int, n: nat)
    requires Linked(h) && Tiled(h) && n > 0 && b > h.base && forall u :: u in h.unit ==> u < b
    ensures !IsBlock(h, b)
    ensures forall x :: IsBlock(Grown(h, b, n), x) <==> IsBlock(h, x) || x == b
    ensures forall x :: x < b ==> Head(Grown(h, b, n), x) == Head(h, x)
    ensures forall x :: IsBlock(h, x) || x in h.list || x in h.live ==> x < b
    ensures forall u :: u in h.unit ==> u in Grown(h, b, n).unit && Grown(h, b, n).unit[u] == h.unit[u]
    ensures forall u :: u in Grown(h, b, n).unit ==> u in h.unit || b <= u < b + n
    ensures forall u :: b <= u < b + n ==> u in Grown(h, b, n).mem && u in Grown(h, b, n).unit && Grown(h, b, n).unit[u] == b
    ensures Size(Grown(h, b, n), b) == n && Grown(h, b, n).base == h.base
    ensures Grown(h, b, n).list == h.list && Grown(h, b, n).live == h.live[b := n]
    ensures forall u :: u in h.mem ==> u in Grown(h, b, n).mem
  {
    hide Linked, Tiled;
    BelowFresh(h, b);
    var h' := Grown(h, b, n);
    forall x ensures IsBlock(h', x) <==> IsBlock(h, x) || x == b {
      assert x in h'.live <==> x in h.live || x == b;
    }
    assert !IsBlock(h, b);
    assert forall u :: b <= u < b + n ==> Inside(u, b, n);
  }

  lemma GrowKeepsTiles(h: Heap, b: int, n: nat)
    requires Linked(h) && Tiled(h) && n > 0 && b > h.base && forall u :: u in h.unit ==> u < b
    ensures Tiled(Grown(h, b, n))
  {
    hide Linked, IsBlock, Grown;
    var h' := Grown(h, b, n);
    GrowShape(h, b, n);
    NotListed(h, b);
    forall x | IsBlock(h', x) ensures Size(h', x) > 0 && Covers(h', x) {
      assert x != b ==> Covers(h, x);
    }
    forall u | u in h'.unit ensures Within(h', u) {
      assert u in h.unit ==> Within(h, u);
    }
  }

  lemma NotListed(h: Heap, b: int)
    requires Linked(h) && Tiled(h) && !IsBlock(h, b) && b != h.base
    ensures b !in h.list && b !in h.live
  {
  }

  lemma GrowKeepsInv(h: Heap, b: int, n: nat)
    requires Inv(h) && n > 0 && b > h.base && forall u :: u in h.unit ==> u < b
    ensures Inv(Grown(h, b, n)) && Undisturbed(h, Grown(h, b, n)) && b !in h.live && b !in h.unit
  {
    hide Tiled, IsBlock;
    var h' := Grown(h, b, n);
    GrowShape(h, b, n);
    NotListed(h, b);
    GrowKeepsTiles(h, b, n);
    forall j: nat | j < |h'.list| ensures Points(h', j) && Gap(h', j) {
      assert h.list[j] in h.list && Points(h, j) && Gap(h, j);
    }
  }
}
