/** What the operations of vm.c do to one address space, as relations between the states before and after. */
module Mappings {
  import opened Blocks
  import opened PageTables

  // ---- growing ----

  /** Address spaces only gained: nothing elsewhere moved but for pages lo up to hi, and mapped user pages kept place
      and contents. */
  ghost predicate Grows(st: State, st': State, d: nat, lo: nat, hi: nat) {
    && Inv(st') && Own(st', d) == Dir && Frame(st, st', d, lo, hi) && Extends(st, st')
    && forall p: nat :: Own(st, p).User? ==> Row(st'.mem, p) == Row(st.mem, p)
  }

  lemma FrameTwice(st: State, st1: State, st2: State, d: nat, lo1: nat, hi1: nat, lo2: nat, hi2: nat, lo: nat, hi: nat)
    requires Frame(st, st1, d, lo1, hi1) && Frame(st1, st2, d, lo2, hi2)
    requires (lo1 < hi1 ==> lo <= lo1 && hi1 <= hi) && (lo2 < hi2 ==> lo <= lo2 && hi2 <= hi)
    ensures Frame(st, st2, d, lo, hi)
  {
    forall p: nat | !(lo <= p < hi) && (Elsewhere(st, p, d) || Elsewhere(st2, p, d)) ensures SamePage(st, st2, p) {
      if Elsewhere(st, p, d) {
        assert SamePage(st, st1, p) && Elsewhere(st1, p, d);
      }
      assert SamePage(st1, st2, p);
    }
  }

  lemma GrowsTwice(st: State, st1: State, st2: State, d: nat, lo1: nat, hi1: nat, lo2: nat, hi2: nat, lo: nat, hi: nat)
    requires Grows(st, st1, d, lo1, hi1) && Grows(st1, st2, d, lo2, hi2)
    requires (lo1 < hi1 ==> lo <= lo1 && hi1 <= hi) && (lo2 < hi2 ==> lo <= lo2 && hi2 <= hi)
    ensures Grows(st, st2, d, lo, hi)
  {
    FrameTwice(st, st1, st2, d, lo1, hi1, lo2, hi2, lo, hi);
    forall p: nat | Own(st, p).Dir? || Own(st, p).Table? ensures KeepsEntries(st, st2, p) {
      assert KeepsEntries(st, st1, p) && KeepsEntries(st1, st2, p);
    }
  }

  /** Directory d now has a table i, at the price of one page if it had none. */
  ghost predicate TableAdded(st: State, st': State, d: nat, i: nat) {
    && Grows(st, st', d, 0, 0) && SameLookups(st, st')
    && (forall k: nat :: k < ENTRIES ==> (HasTable(st'.mem, d, k) <==> HasTable(st.mem, d, k) || k == i))
    && |st'.free| == |st.free| - (if HasTable(st.mem, d, i) then 0 else 1)
  }

  ghost function NewTable(st: State, d: nat, i: nat): State
    requires Inv(st) && Own(st, d) == Dir && |st.free| > 0 && i < ENTRIES
  {
    PopKeepsInv(st);
    WithTable(Popped(st), d, i, st.free[|st.free| - 1])
  }

  lemma NewTableAdds(st: State, d: nat, i: nat)
    requires Inv(st) && Own(st, d) == Dir && |st.free| > 0 && i < ENTRIES && !HasTable(st.mem, d, i)
    ensures TableAdded(st, NewTable(st, d, i), d, i)
    ensures PageOf(Get(NewTable(st, d, i).mem, d, i)) == st.free[|st.free| - 1]
  {
    var t := st.free[|st.free| - 1];
    var st1, st' := Popped(st), NewTable(st, d, i);
    PopKeepsInv(st);
    TableEntries(st1, d, i, t);
    TableKeepsInv(st1, d, i, t);
    assert SameLookups(st, st');
    assert Extends(st, st');
    assert Frame(st, st', d, 0, 0);
  }

  /** How many tables the virtual pages from lo up to hi still lack. */
  ghost function Missing(mem: seq<seq<nat>>, d: nat, lo: nat, hi: nat): nat {
    if hi <= lo then 0
    else Missing(mem, d, lo, hi - 1) + if NeedsTable(mem, d, lo, hi - 1) then 1 else 0
  }

  /** v is the first page of the range in a table that is not there. */
  ghost predicate NeedsTable(mem: seq<seq<nat>>, d: nat, lo: nat, v: nat) {
    !HasTable(mem, d, v / ENTRIES) && (v == lo || v % ENTRIES == 0)
  }

  /** The entry mappages writes for page q. */
  function Pte(q: nat, perm: nat): nat {
    q * PAGE + perm + if perm % 2 == 1 then 0 else 1
  }

  /** Its parts: page q, the present bit, and every other of the low 12 bits as perm has it. */
  lemma PteParts(q: nat, perm: nat)
    requires perm < PAGE
    ensures Present(Pte(q, perm)) && PageOf(Pte(q, perm)) == q
    ensures Pte(q, perm) % 2 == 1 && Pte(q, perm) / PAGE == q && Pte(q, perm) % PAGE / 2 == perm / 2
  {
  }

  /** Virtual page x of d is there, and its entry has these flags, with the present bit, below the page's address. */
  ghost predicate HasFlags(mem: seq<seq<nat>>, d: nat, x: nat, flags: nat) {
    var r := Lookup(mem, d, x);
    r.Some? && r.value % 2 == 1 && r.value % PAGE / 2 == flags / 2
  }

  /** Virtual page v of d now maps w. */
  ghost predicate LeafAdded(st: State, st': State, d: nat, v: nat, w: nat) {
    && Grows(st, st', d, PageOf(w), PageOf(w) + if v < KERNPAGE then 1 else 0)
    && LookupUpdated(st, st', d, v, Some(w)) && |st'.free| == |st.free|
    && (forall k: nat :: k < ENTRIES ==> (HasTable(st'.mem, d, k) <==> HasTable(st.mem, d, k)))
    && (v < KERNPAGE ==> Own(st', PageOf(w)) == User(d, v) && Row(st'.mem, PageOf(w)) == Row(st.mem, PageOf(w)))
  }

  lemma LeafAdds(st: State, d: nat, v: nat, w: nat)
    requires Inv(st) && CanMap(st, d, v, w)
    ensures TableOf(st.mem, d, v) < |st.mem| && LeafAdded(st, WithLeaf(st, d, v, w), d, v, w)
  {
    LeafKeepsInv(st, d, v, w);
    LeafTable(st, d, v);
    var st' := WithLeaf(st, d, v, w);
    assert Frame(st, st', d, PageOf(w), PageOf(w) + if v < KERNPAGE then 1 else 0);
    assert Extends(st, st');
  }

  // ---- mapping a range ----

  ghost predicate MapsPages(st: State, st': State, d: nat, a: nat, q: nat, n: nat, perm: nat) {
    forall x: nat :: x < VPAGES ==>
      Lookup(st'.mem, d, x) == if a <= x < a + n then Some(Pte(q + x - a, perm)) else Lookup(st.mem, d, x)
  }

  lemma MapsFlags(st: State, st': State, d: nat, a: nat, q: nat, n: nat, perm: nat)
    requires MappedTo(st, st', d, a, q, n, perm) && perm < PAGE && a + n <= VPAGES
    ensures forall x: nat :: a <= x < a + n ==> HasFlags(st'.mem, d, x, perm) && Lookup(st'.mem, d, x).value / PAGE == q + x - a
  {
    hide Grows, GivesPages, AddsTables, Missing, Lookup, Pte;
    forall x: nat | a <= x < a + n
      ensures HasFlags(st'.mem, d, x, perm) && Lookup(st'.mem, d, x).value / PAGE == q + x - a
    {
      PteParts(q + x - a, perm);
    }
  }

  ghost predicate GivesPages(st: State, st': State, d: nat, a: nat, q: nat, n: nat) {
    forall p: nat :: a < KERNPAGE && q <= p < q + n ==> Own(st', p) == User(d, a + p - q) && Row(st'.mem, p) == Row(st.mem, p)
  }

  ghost predicate AddsTables(st: State, st': State, d: nat, a: nat, n: nat) {
    forall i: nat :: i < ENTRIES ==>
      (HasTable(st'.mem, d, i) <==> HasTable(st.mem, d, i) || (n > 0 && a / ENTRIES <= i <= (a + n - 1) / ENTRIES))
  }

  /** Virtual pages a, a + 1, ..., a + n - 1 of d now map pages q, q + 1, ...; nothing else changed but for the
      tables that had to be added. */
  ghost predicate MappedTo(st: State, st': State, d: nat, a: nat, q: nat, n: nat, perm: nat) {
    && Grows(st, st', d, q, if a < KERNPAGE then q + n else q)
    && MapsPages(st, st', d, a, q, n, perm) && GivesPages(st, st', d, a, q, n) && AddsTables(st, st', d, a, n)
    && |st'.free| + Missing(st.mem, d, a, a + n) == |st.free|
  }

  /** The range is free in d, within one half, and user pages are in the kernel's hands. */
  ghost predicate Mappable(st: State, d: nat, a: nat, q: nat, n: nat) {
    && Own(st, d) == Dir && a + n <= VPAGES
    && (a < KERNPAGE ==> a + n <= KERNPAGE)
    && (forall x: nat :: a <= x < a + n ==> Lookup(st.mem, d, x) == None)
    && (forall p: nat :: a < KERNPAGE && q <= p < q + n ==> Own(st, p) == Held)
  }

  lemma MappedNone(st: State, d: nat, a: nat, q: nat, perm: nat)
    requires Inv(st) && Own(st, d) == Dir
    ensures MappedTo(st, st, d, a, q, 0, perm)
  {
  }

  lemma MapTable(st: State, st1: State, st2: State, d: nat, a: nat, q: nat, n: nat, perm: nat)
    requires Inv(st) && Mappable(st, d, a, q, n + 1) && MappedTo(st, st1, d, a, q, n, perm) && perm < PAGE
    requires TableAdded(st1, st2, d, (a + n) / ENTRIES)
    ensures CanMap(st2, d, a + n, Pte(q + n, perm))
    ensures a < KERNPAGE ==> Row(st2.mem, q + n) == Row(st.mem, q + n)
  {
    hide Inv;
    PteParts(q + n, perm);
    var p := q + n;
    if a < KERNPAGE {
      assert Own(st, p) == Held && Elsewhere(st, p, d);
      assert SamePage(st, st1, p) && SamePage(st1, st2, p);
    }
    assert Own(st1, d) == Dir;
  }

  lemma MissingMore(st: State, st1: State, d: nat, a: nat, n: nat)
    requires AddsTables(st, st1, d, a, n) && a + n < VPAGES
    ensures Missing(st.mem, d, a, a + n + 1) ==
            Missing(st.mem, d, a, a + n) + if HasTable(st1.mem, d, (a + n) / ENTRIES) then 0 else 1
  {
  }

  lemma MapStep(st: State, st1: State, st2: State, st3: State, d: nat, a: nat, q: nat, n: nat, perm: nat)
    requires Inv(st) && Mappable(st, d, a, q, n + 1) && MappedTo(st, st1, d, a, q, n, perm) && perm < PAGE
    requires TableAdded(st1, st2, d, (a + n) / ENTRIES)
    requires LeafAdded(st2, st3, d, a + n, Pte(q + n, perm))
    ensures MappedTo(st, st3, d, a, q, n + 1, perm)
  {
    hide Inv, Grows, Lookup, HasTable, Missing;
    MapTable(st, st1, st2, d, a, q, n, perm);
    PteParts(q + n, perm);
    MapGrows(st, st1, st2, st3, d, a, q, n, perm);
    MissingMore(st, st1, d, a, n);
    MapGives(st, st1, st2, st3, d, a, q, n, perm);
    assert Own(st1, d) == Dir && Own(st2, d) == Dir by { GrowsDir(st, st1, st2, d, a, q, n); }
    forall i: nat | i < ENTRIES
      ensures HasTable(st3.mem, d, i) <==> HasTable(st.mem, d, i) || (a / ENTRIES <= i <= (a + n) / ENTRIES)
    {
      assert HasTable(st3.mem, d, i) <==> HasTable(st2.mem, d, i);
      assert HasTable(st2.mem, d, i) <==> HasTable(st1.mem, d, i) || i == (a + n) / ENTRIES;
      assert n > 0 ==> (a + n) / ENTRIES == (a + n - 1) / ENTRIES || (a + n) / ENTRIES == (a + n - 1) / ENTRIES + 1;
    }
  }

  lemma GrowsDir(st: State, st1: State, st2: State, d: nat, a: nat, q: nat, n: nat)
    requires Grows(st, st1, d, q, if a < KERNPAGE then q + n else q) && Grows(st1, st2, d, 0, 0)
    ensures Own(st1, d) == Dir && Own(st2, d) == Dir
  {
  }

  lemma MapGrows(st: State, st1: State, st2: State, st3: State, d: nat, a: nat, q: nat, n: nat, perm: nat)
    requires Grows(st, st1, d, q, if a < KERNPAGE then q + n else q) && perm < PAGE
    requires TableAdded(st1, st2, d, (a + n) / ENTRIES) && (a < KERNPAGE ==> a + n < KERNPAGE)
    requires LeafAdded(st2, st3, d, a + n, Pte(q + n, perm))
    ensures Grows(st, st3, d, q, if a < KERNPAGE then q + n + 1 else q)
  {
    hide Grows;
    PteParts(q + n, perm);
    GrowsTwice(st, st1, st2, d, q, if a < KERNPAGE then q + n else q, 0, 0, q, if a < KERNPAGE then q + n else q);
    GrowsTwice(st, st2, st3, d, q, if a < KERNPAGE then q + n else q, q + n, q + n + (if a + n < KERNPAGE then 1 else 0),
               q, if a < KERNPAGE then q + n + 1 else q);
  }

  lemma MapGives(st: State, st1: State, st2: State, st3: State, d: nat, a: nat, q: nat, n: nat, perm: nat)
    requires MappedTo(st, st1, d, a, q, n, perm) && perm < PAGE && (a < KERNPAGE ==> a + n < KERNPAGE)
    requires TableAdded(st1, st2, d, (a + n) / ENTRIES) && LeafAdded(st2, st3, d, a + n, Pte(q + n, perm))
    requires a < KERNPAGE ==> Row(st2.mem, q + n) == Row(st.mem, q + n)
    ensures GivesPages(st, st3, d, a, q, n + 1)
  {
    hide Inv, Lookup;
    PteParts(q + n, perm);
    forall p: nat | a < KERNPAGE && q <= p < q + n + 1
      ensures Own(st3, p) == User(d, a + p - q) && Row(st3.mem, p) == Row(st.mem, p)
    {
      if p < q + n {
        assert Own(st1, p) == User(d, a + p - q);
        assert Own(st2, p) == Own(st1, p) && Own(st3, p) == Own(st2, p);
      }
    }
  }

  lemma TableAlready(st: State, d: nat, i: nat)
    requires Inv(st) && Own(st, d) == Dir && HasTable(st.mem, d, i)
    ensures TableAdded(st, st, d, i)
  {
  }

  lemma {:induction false} MissingGrows(mem: seq<seq<nat>>, d: nat, lo: nat, mid: nat, hi: nat)
    requires mid <= hi
    ensures Missing(mem, d, lo, mid) <= Missing(mem, d, lo, hi)
    decreases hi - mid
  {
    if mid < hi {
      MissingGrows(mem, d, lo, mid, hi - 1);
    }
  }

  /** Out of pages at the n-th step, the whole range needed more tables than there were free pages. */
  lemma MapStuck(st: State, st1: State, d: nat, a: nat, q: nat, n: nat, total: nat, perm: nat)
    requires MappedTo(st, st1, d, a, q, n, perm) && n < total && a + total <= VPAGES
    requires st1.free == [] && !HasTable(st1.mem, d, (a + n) / ENTRIES)
    ensures |st.free| < Missing(st.mem, d, a, a + total)
  {
    MissingMore(st, st1, d, a, n);
    MissingGrows(st.mem, d, a, a + n + 1, a + total);
  }

  // ---- clearing a range ----

  /** Page p after virtual pages lo up to hi of d were unmapped and their pages freed. */
  ghost predicate ClearsPage(st: State, st': State, d: nat, lo: nat, hi: nat, p: nat) {
    match Own(st, p)
    case Free(_) => Own(st', p).Free?
    case Dir => if p == d then Own(st', p) == Dir else SamePage(st, st', p)
    case Table(e, i) => if e == d then Own(st', p) == Table(d, i) else SamePage(st, st', p)
    case User(e, v) => if e == d && lo <= v < hi then Own(st', p).Free? else SamePage(st, st', p)
    case _ => SamePage(st, st', p)
  }

  /** Exactly the mappings of virtual pages lo up to hi are gone from d, and exactly their pages are free. */
  ghost predicate Cleared(st: State, st': State, d: nat, lo: nat, hi: nat) {
    && Inv(st') && Own(st', d) == Dir && st'.owner.Keys == st.owner.Keys && |st'.mem| == |st.mem|
    && (forall p: nat :: ClearsPage(st, st', d, lo, hi, p))
    && (forall x: nat :: x < VPAGES ==> Lookup(st'.mem, d, x) == if lo <= x < hi then None else Lookup(st.mem, d, x))
    && (forall i: nat :: i < ENTRIES ==> (HasTable(st'.mem, d, i) <==> HasTable(st.mem, d, i)))
  }

  /** A stretch without mappings needs no clearing. */
  lemma ClearedAbsent(st: State, d: nat, lo: nat, hi: nat)
    requires Inv(st) && Own(st, d) == Dir && hi <= KERNPAGE
    requires forall x: nat :: lo <= x < hi ==> Lookup(st.mem, d, x) == None
    ensures Cleared(st, st, d, lo, hi)
  {
    forall p: nat ensures ClearsPage(st, st, d, lo, hi, p) {
      assert p in st.owner ==> OwnerOk(st, p);
    }
  }

  /** No virtual page of a missing table is mapped. */
  lemma AbsentTable(mem: seq<seq<nat>>, d: nat, v: nat)
    requires !HasTable(mem, d, v / ENTRIES)
    ensures forall x: nat :: v <= x < (v / ENTRIES + 1) * ENTRIES ==> Lookup(mem, d, x) == None
  {
    forall x: nat | v <= x < (v / ENTRIES + 1) * ENTRIES ensures Lookup(mem, d, x) == None {
      assert x / ENTRIES == v / ENTRIES;
    }
  }

  /** Unmap v and free its page. */
  ghost function Released(st: State, d: nat, v: nat): State
    requires Inv(st) && Own(st, d) == Dir && v < KERNPAGE && Lookup(st.mem, d, v).Some?
  {
    UnmapKeepsInv(st, d, v);
    UnmapOwner(st, d, v);
    Pushed(WithoutLeaf(st, d, v), PageOf(Lookup(st.mem, d, v).value))
  }

  lemma ReleasePage(st: State, d: nat, v: nat, p: nat)
    requires Inv(st) && Own(st, d) == Dir && v < KERNPAGE && Lookup(st.mem, d, v).Some?
    ensures ClearsPage(st, Released(st, d, v), d, v, v + 1, p)
  {
    UnmapOwner(st, d, v);
    LeafTable(st, d, v);
    assert p in st.owner ==> OwnerOk(st, p);
  }

  lemma ReleaseClears(st: State, d: nat, v: nat)
    requires Inv(st) && Own(st, d) == Dir && v < KERNPAGE && Lookup(st.mem, d, v).Some?
    ensures Cleared(st, Released(st, d, v), d, v, v + 1)
  {
    hide ClearsPage;
    var st1, st' := WithoutLeaf(st, d, v), Released(st, d, v);
    UnmapOwner(st, d, v);
    UnmapKeepsInv(st, d, v);
    LeafTable(st, d, v);
    PushKeepsInv(st1, PageOf(Lookup(st.mem, d, v).value));
    SameRowsSameLookups(st1, st');
    var w := v + 1;
    forall p: nat ensures ClearsPage(st, st', d, v, w, p) {
      ReleasePage(st, d, v, p);
    }
  }

  lemma ClearedTwice(st: State, st1: State, st2: State, d: nat, lo: nat, mid: nat, hi: nat)
    requires Cleared(st, st1, d, lo, mid) && Cleared(st1, st2, d, mid, hi) && lo <= mid <= hi
    ensures Cleared(st, st2, d, lo, hi)
  {
    forall p: nat ensures ClearsPage(st, st2, d, lo, hi, p) {
      assert ClearsPage(st, st1, d, lo, mid, p) && ClearsPage(st1, st2, d, mid, hi, p);
    }
  }

  // ---- growing by fresh zeroed pages ----

  /** kalloc followed by filling the page: u is in the kernel's hands, all else is as it was. */
  ghost predicate Taken(st: State, st': State, u: nat) {
    && Inv(st') && Own(st, u).Free? && Own(st', u) == Held
    && st'.owner.Keys == st.owner.Keys && |st'.mem| == |st.mem| && |st'.free| == |st.free| - 1
    && (forall p: nat :: p != u ==> SamePage(st, st', p))
    && SameLookups(st, st')
  }

  ghost function Filled(st: State, page: seq<nat>): State
    requires |st.free| > 0
  {
    var u := st.free[|st.free| - 1];
    State(if u < |st.mem| then st.mem[u := page] else st.mem, Popped(st).free, Popped(st).owner)
  }

  /** Overwriting a page in the kernel's hands, or one with user data, moves nothing in any address space. */
  lemma WriteContents(st: State, u: nat, page: seq<nat>)
    requires Inv(st) && (Own(st, u).Held? || Own(st, u).User?) && |page| == ENTRIES
    ensures u < |st.mem| && Inv(st.(mem := st.mem[u := page])) && SameLookups(st, st.(mem := st.mem[u := page]))
  {
    var st' := st.(mem := st.mem[u := page]);
    SameRowsSameLookups(st, st');
    forall k | 0 <= k < |st'.free| ensures FreeOk(st', k) {
      assert FreeOk(st, k);
    }
    assert Extends(st, st');
    forall q | q in st'.owner ensures OwnerOk(st', q) {
      assert OwnerOk(st, q);
      if Structural(Own(st, q)) {
        OwnerKept(st, st', q);
      }
    }
  }

  lemma FilledIsTaken(st: State, page: seq<nat>)
    requires Inv(st) && |st.free| > 0 && |page| == ENTRIES
    ensures Taken(st, Filled(st, page), st.free[|st.free| - 1])
    ensures Row(Filled(st, page).mem, st.free[|st.free| - 1]) == page
  {
    PopKeepsInv(st);
    WriteContents(Popped(st), st.free[|st.free| - 1], page);
  }

  /** At x the process has a page that was free, with these contents and permissions. */
  ghost predicate PageAt(st: State, st': State, d: nat, x: nat, page: seq<nat>, perm: nat) {
    var r := Lookup(st'.mem, d, x);
    HasFlags(st'.mem, d, x, perm) && Own(st, PageOf(r.value)).Free? && Row(st'.mem, PageOf(r.value)) == page
  }

  /** Within virtual pages lo up to hi, d gained a page each; the tables needed were added and nothing else changed. */
  ghost predicate Grew(st: State, st': State, d: nat, lo: nat, hi: nat) {
    && lo <= hi && Grows(st, st', d, 0, 0) && AddsTables(st, st', d, lo, hi - lo)
    && (forall x: nat :: x < VPAGES && !(lo <= x < hi) ==> Lookup(st'.mem, d, x) == Lookup(st.mem, d, x))
    && |st'.free| + Missing(st.mem, d, lo, hi) + (hi - lo) == |st.free|
  }

  /** The pages gained are fresh, zeroed and writable. */
  ghost predicate GrownBy(st: State, st': State, d: nat, lo: nat, hi: nat) {
    Grew(st, st', d, lo, hi) && forall x: nat :: lo <= x < hi ==> PageAt(st, st', d, x, ZeroPage(), 6)
  }

  /** Every page gained is present, writable and open to user code. */
  lemma GrownFlags(st: State, st': State, d: nat, lo: nat, hi: nat)
    requires GrownBy(st, st', d, lo, hi)
    ensures forall x: nat :: lo <= x < hi ==> HasFlags(st'.mem, d, x, 7)
  {
    forall x: nat | lo <= x < hi ensures HasFlags(st'.mem, d, x, 7) {
      assert PageAt(st, st', d, x, ZeroPage(), 6);
    }
  }

  lemma GrewNone(st: State, d: nat, lo: nat)
    requires Inv(st) && Own(st, d) == Dir
    ensures Grew(st, st, d, lo, lo)
  {
  }

  /** What growing takes was free before. */
  lemma FreeBefore(st: State, st': State, d: nat, u: nat)
    requires Grows(st, st', d, 0, 0) && Own(st', u).Free?
    ensures Own(st, u).Free?
  {
    assert Elsewhere(st, u, d) ==> SamePage(st, st', u);
  }

  lemma TakenGrows(st: State, st': State, d: nat, u: nat)
    requires Inv(st) && Own(st, d) == Dir && Taken(st, st', u)
    ensures Grows(st, st', d, u, u + 1)
    ensures forall i: nat :: HasTable(st'.mem, d, i) <==> HasTable(st.mem, d, i)
  {
    hide Inv;
    assert SamePage(st, st', d);
    forall p: nat | p != u ensures Own(st', p) == Own(st, p) && Row(st'.mem, p) == Row(st.mem, p) {
      assert SamePage(st, st', p);
    }
    forall p: nat | Own(st, p).Dir? || Own(st, p).Table? ensures KeepsEntries(st, st', p) {
      assert SamePage(st, st', p);
    }
  }

  lemma GrowFrames(st: State, st1: State, st2: State, st3: State, d: nat, v: nat, u: nat)
    requires Inv(st1) && Grows(st, st1, d, 0, 0) && Taken(st1, st2, u) && Grows(st2, st3, d, u, u + 1)
    requires Own(st3, u) == User(d, v)
    ensures Grows(st, st3, d, 0, 0) && Own(st, u).Free?
  {
    hide Inv, Extends;
    TakenGrows(st1, st2, d, u);
    FreeBefore(st, st1, d, u);
    GrowsTwice(st, st1, st2, d, 0, 0, u, u + 1, u, u + 1);
    GrowsTwice(st, st2, st3, d, u, u + 1, u, u + 1, u, u + 1);
  }

  /** Pages gained earlier stay as they are when one more is gained, */
  lemma GrowOld(st: State, st1: State, st2: State, st3: State, d: nat, lo: nat, v: nat, u: nat, perm: nat, x: nat,
                page: seq<nat>, flags: nat)
    requires Inv(st1) && Grew(st, st1, d, lo, v) && Taken(st1, st2, u) && MappedTo(st2, st3, d, v, u, 1, perm)
    requires lo <= x < v < KERNPAGE && PageAt(st, st1, d, x, page, flags)
    ensures PageAt(st, st3, d, x, page, flags)
  {
    assert Lookup(st2.mem, d, x) == Lookup(st1.mem, d, x);
    UnmapOwner(st1, d, x);
    var p := PageOf(Lookup(st1.mem, d, x).value);
    assert SamePage(st1, st2, p);
  }

  /** and the new one is what was taken. */
  lemma GrowNew(st: State, st1: State, st2: State, st3: State, d: nat, lo: nat, v: nat, u: nat, perm: nat)
    requires Grew(st, st1, d, lo, v) && Taken(st1, st2, u) && MappedTo(st2, st3, d, v, u, 1, perm)
    requires v < KERNPAGE && perm < PAGE
    ensures PageAt(st, st3, d, v, Row(st2.mem, u), perm)
  {
    PteParts(u, perm);
    FreeBefore(st, st1, d, u);
  }

  /** One page more: taken, filled and mapped. */
  lemma GrowStep(st: State, st1: State, st2: State, st3: State, d: nat, lo: nat, v: nat, u: nat, perm: nat)
    requires lo <= v < KERNPAGE && Inv(st1) && Grew(st, st1, d, lo, v)
    requires Taken(st1, st2, u) && MappedTo(st2, st3, d, v, u, 1, perm)
    ensures Grew(st, st3, d, lo, v + 1)
  {
    hide Inv, Grows, Lookup, HasTable;
    GrowTables(st, st1, st2, st3, d, lo, v, u, perm);
    assert Own(st3, u) == User(d, v);
    GrowFrames(st, st1, st2, st3, d, v, u);
    GrewDir(st, st1, d, lo, v);
    var w := v + 1;
    forall x: nat | x < VPAGES && !(lo <= x < w) ensures Lookup(st3.mem, d, x) == Lookup(st.mem, d, x) {
      assert Lookup(st2.mem, d, x) == Lookup(st1.mem, d, x);
    }
  }

  lemma GrewDir(st: State, st1: State, d: nat, lo: nat, v: nat)
    requires Grew(st, st1, d, lo, v)
    ensures Own(st1, d) == Dir && Inv(st1)
  {
  }

  lemma GrowTables(st: State, st1: State, st2: State, st3: State, d: nat, lo: nat, v: nat, u: nat, perm: nat)
    requires lo <= v < KERNPAGE && Inv(st1) && Grew(st, st1, d, lo, v)
    requires Taken(st1, st2, u) && MappedTo(st2, st3, d, v, u, 1, perm)
    ensures AddsTables(st, st3, d, lo, v + 1 - lo)
    ensures |st3.free| + Missing(st.mem, d, lo, v + 1) + (v + 1 - lo) == |st.free|
  {
    hide Inv, Lookup;
    TakenGrows(st1, st2, d, u);
    MissingMore(st, st1, d, lo, v - lo);
    assert Missing(st2.mem, d, v, v) == 0;
    forall i: nat | i < ENTRIES
      ensures HasTable(st3.mem, d, i) <==> HasTable(st.mem, d, i) || lo / ENTRIES <= i <= v / ENTRIES
    {
      assert HasTable(st3.mem, d, i) <==> HasTable(st1.mem, d, i) || i == v / ENTRIES;
      assert v > lo ==> v / ENTRIES == (v - 1) / ENTRIES || v / ENTRIES == (v - 1) / ENTRIES + 1;
    }
  }

  // ---- rolling back ----

  /** Page p after a failed growth of d: as it was, but that a free page may have become an (empty) table of d. */
  ghost predicate RestoresPage(st: State, st': State, d: nat, p: nat) {
    match Own(st, p)
    case Free(_) => Own(st', p).Free? || (Own(st', p).Table? && Own(st', p).dir == d)
    case Dir => if p == d then Own(st', p) == Dir else SamePage(st, st', p)
    case Table(e, i) => if e == d then Own(st', p) == Table(d, i) else SamePage(st, st', p)
    case _ => SamePage(st, st', p)
  }

  ghost predicate Restored(st: State, st': State, d: nat) {
    && Inv(st') && Own(st', d) == Dir && st'.owner.Keys == st.owner.Keys && |st'.mem| == |st.mem|
    && (forall p: nat :: RestoresPage(st, st', d, p))
    && (forall x: nat :: x < VPAGES ==> Lookup(st'.mem, d, x) == Lookup(st.mem, d, x))
  }

  lemma RollBackPage(st: State, st1: State, st2: State, d: nat, lo: nat, v: nat, hi: nat, p: nat)
    requires Inv(st) && lo <= v <= hi <= KERNPAGE && (forall x: nat :: lo <= x < hi ==> Lookup(st.mem, d, x) == None)
    requires Inv(st1) && Grew(st, st1, d, lo, v) && ClearsPage(st1, st2, d, lo, hi, p) && Own(st, d) == Dir
    ensures RestoresPage(st, st2, d, p)
  {
    hide Inv;
    assert Elsewhere(st, p, d) || Elsewhere(st1, p, d) ==> SamePage(st, st1, p);
    if Own(st, p).User? {
      UserPlace(st, p);
    }
    if Own(st, p).Free? && Own(st1, p).User? {
      UserPlace(st1, p);
      var x := Own(st1, p).vpn;
      if !(lo <= x < v) {
        UnmapOwner(st, d, x);
      }
    }
  }

  lemma UserPlace(st: State, p: nat)
    requires Inv(st) && Own(st, p).User?
    ensures Own(st, p).vpn < KERNPAGE && Own(st, Own(st, p).dir) == Dir
    ensures Lookup(st.mem, Own(st, p).dir, Own(st, p).vpn).Some?
    ensures PageOf(Lookup(st.mem, Own(st, p).dir, Own(st, p).vpn).value) == p
  {
    assert OwnerOk(st, p);
  }

  /** A failed growth, once cleared, leaves every mapping and every page of the process as before. */
  lemma RollBack(st: State, st1: State, st2: State, d: nat, lo: nat, v: nat, hi: nat)
    requires Inv(st) && lo <= v <= hi <= KERNPAGE && (forall x: nat :: lo <= x < hi ==> Lookup(st.mem, d, x) == None)
    requires Inv(st1) && Grew(st, st1, d, lo, v) && Cleared(st1, st2, d, lo, hi) && Own(st, d) == Dir
    ensures Restored(st, st2, d)
  {
    hide Inv, ClearsPage, RestoresPage;
    forall p: nat ensures RestoresPage(st, st2, d, p) {
      RollBackPage(st, st1, st2, d, lo, v, hi, p);
    }
  }

  lemma AroundPage(st: State, st1: State, st2: State, d: nat, lo: nat, hi: nat, u: nat, p: nat)
    requires Taken(st, st1, u) && ClearsPage(st1, st2, d, lo, hi, p) && u < |st2.mem|
    ensures ClearsPage(st, Pushed(st2, u), d, lo, hi, p)
  {
    hide Inv;
    assert p != u ==> SamePage(st, st1, p);
  }

  lemma StaysHeld(st: State, st': State, d: nat, lo: nat, hi: nat, u: nat)
    requires Cleared(st, st', d, lo, hi) && Own(st, u) == Held
    ensures Own(st', u) == Held && u < |st'.mem| && u != d
  {
    assert ClearsPage(st, st', d, lo, hi, u);
  }

  /** Clearing while a page is held, and freeing that page last, amounts to clearing before it was taken. */
  lemma ClearedAround(st: State, st1: State, st2: State, d: nat, lo: nat, hi: nat, u: nat)
    requires Inv(st) && Own(st, d) == Dir && Taken(st, st1, u) && Cleared(st1, st2, d, lo, hi)
    ensures Own(st2, u) == Held && u < |st2.mem| && Cleared(st, Pushed(st2, u), d, lo, hi)
  {
    hide ClearsPage, OwnerOk, FreeOk, Lookup;
    StaysHeld(st1, st2, d, lo, hi, u);
    var st' := Pushed(st2, u);
    PushKeepsInv(st2, u);
    SameRowsSameLookups(st2, st');
    forall p: nat ensures ClearsPage(st, st', d, lo, hi, p) {
      AroundPage(st, st1, st2, d, lo, hi, u, p);
    }
    TakenGrows(st, st1, d, u);
    assert Row(st'.mem, d) == Row(st2.mem, d);
    assert forall i: nat :: HasTable(st'.mem, d, i) <==> HasTable(st2.mem, d, i);
  }

  /** Out of pages at v, the growth as a whole needed more than there were. */
  lemma GrowStuck(st: State, st1: State, d: nat, lo: nat, v: nat, hi: nat)
    requires Grew(st, st1, d, lo, v) && v < hi <= KERNPAGE
    requires |st1.free| < 1 + if HasTable(st1.mem, d, v / ENTRIES) then 0 else 1
    ensures |st.free| < hi - lo + Missing(st.mem, d, lo, hi)
  {
    hide Grows, Lookup;
    MissingMore(st, st1, d, lo, v - lo);
    MissingGrows(st.mem, d, lo, v + 1, hi);
  }

  /** A page just taken can be mapped where nothing was. */
  lemma TakenMappable(st: State, st1: State, st2: State, d: nat, lo: nat, v: nat, u: nat)
    requires Inv(st1) && Grew(st, st1, d, lo, v) && Taken(st1, st2, u) && v < KERNPAGE && Lookup(st.mem, d, v) == None
    ensures Mappable(st2, d, v, u, 1)
    ensures Missing(st2.mem, d, v, v + 1) == if HasTable(st1.mem, d, v / ENTRIES) then 0 else 1
  {
    hide Inv;
    TakenGrows(st1, st2, d, u);
    assert Missing(st2.mem, d, v, v) == 0;
  }
}
