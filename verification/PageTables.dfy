/** Physical pages, the kernel's page allocator and two-level page tables (kalloc.c, vm.c) as values, in the format of
    32-bit paging (Intel SDM Volume 3A, section 4.3). Pages are numbered by physical address divided by 4096 and hold
    1024 words; virtual pages likewise by virtual address divided by 4096. */
module PageTables {
  import opened Blocks

  const ENTRIES := 1024
  const PAGE := 4096
  /** Virtual pages, and the first one of the kernel's half. */
  const VPAGES := 0x10_0000
  const KERNPAGE := 0x8_0000
  const KERNBASE := 0x8000_0000

  /** Who has a page: the kernel image, the free list (at that depth), kernel code that took it from kalloc,
      or a place in some address space. */
  datatype Owner = Outside | Free(pos: nat) | Held | Dir | Table(dir: nat, idx: nat) | User(dir: nat, vpn: nat)

  /** `free` is the free list with its head last. */
  datatype State = State(mem: seq<seq<nat>>, free: seq<nat>, owner: map<nat, Owner>)

  ghost function Own(st: State, p: nat): Owner {
    if p in st.owner then st.owner[p] else Outside
  }

  function Get(mem: seq<seq<nat>>, p: nat, j: nat): nat {
    if p < |mem| && j < |mem[p]| then mem[p][j] else 0
  }

  function Put(mem: seq<seq<nat>>, p: nat, j: nat, w: nat): seq<seq<nat>>
    requires p < |mem| && j < |mem[p]|
  {
    var page: seq<nat> := mem[p][j := w];
    mem[p := page]
  }

  /** The present bit and the page of an entry. */
  predicate Present(w: nat) {
    w % 2 == 1
  }

  function PageOf(w: nat): nat {
    w / PAGE
  }

  predicate HasTable(mem: seq<seq<nat>>, d: nat, i: nat) {
    Present(Get(mem, d, i))
  }

  /** What the hardware finds at virtual page v of directory d. */
  function Lookup(mem: seq<seq<nat>>, d: nat, v: nat): Option<nat> {
    var e := Get(mem, d, v / ENTRIES);
    var w := Get(mem, PageOf(e), v % ENTRIES);
    if Present(e) && Present(w) then Some(w) else None
  }

  /** The address a free page stores in its first word. */
  function P2V(p: nat): nat {
    KERNBASE + p * PAGE
  }

  ghost function Link(free: seq<nat>, k: nat): nat
    requires k <= |free|
  {
    if k == 0 then 0 else P2V(free[k - 1])
  }

  ghost predicate FreeOk(st: State, k: nat)
    requires k < |st.free|
  {
    Own(st, st.free[k]) == Free(k) && Get(st.mem, st.free[k], 0) == Link(st.free, k)
  }

  /** A directory's entry leads to a table of its own, and forbids nothing that the table's entries allow. */
  ghost predicate EntryOk(st: State, d: nat, i: nat) {
    Present(Get(st.mem, d, i)) ==> Own(st, PageOf(Get(st.mem, d, i))) == Table(d, i) && Get(st.mem, d, i) % PAGE == 7
  }

  ghost predicate LeafOk(st: State, t: nat, d: nat, i: nat, j: nat) {
    Present(Get(st.mem, t, j)) ==> Own(st, PageOf(Get(st.mem, t, j))) == User(d, i * ENTRIES + j)
  }

  /** A page is where its owner says, and everything it refers to says so too. */
  ghost predicate OwnerOk(st: State, p: nat) {
    match Own(st, p)
    case Outside => false
    case Free(k) => k < |st.free| && st.free[k] == p
    case Held => true
    case Dir => forall i :: 0 <= i < ENTRIES ==> EntryOk(st, p, i)
    case Table(d, i) =>
      && i < ENTRIES && Own(st, d) == Dir && Present(Get(st.mem, d, i)) && PageOf(Get(st.mem, d, i)) == p
      && (i < KERNPAGE / ENTRIES ==> forall j :: 0 <= j < ENTRIES ==> LeafOk(st, p, d, i, j))
    case User(d, v) =>
      v < KERNPAGE && Own(st, d) == Dir && Lookup(st.mem, d, v).Some? && PageOf(Lookup(st.mem, d, v).value) == p
  }

  ghost predicate Shape(st: State) {
    && (forall p :: 0 <= p < |st.mem| ==> |st.mem[p]| == ENTRIES)
    && (forall p :: p in st.owner ==> 0 < p < |st.mem|)
  }

  /** Every page the allocator manages is in exactly one place. */
  ghost predicate Inv(st: State) {
    && Shape(st)
    && (forall k :: 0 <= k < |st.free| ==> FreeOk(st, k))
    && (forall p :: p in st.owner ==> OwnerOk(st, p))
  }

  // ---- steps that only add to the structure ----

  predicate Structural(o: Owner) {
    o.Dir? || o.Table? || o.User?
  }

  ghost predicate KeepsEntries(st: State, st': State, p: nat) {
    forall j :: 0 <= j < ENTRIES && Present(Get(st.mem, p, j)) ==> Get(st'.mem, p, j) == Get(st.mem, p, j)
  }

  /** Pages of address spaces keep their owner, and present entries stay. */
  ghost predicate Extends(st: State, st': State) {
    && st'.owner.Keys == st.owner.Keys
    && (forall p :: Structural(Own(st, p)) ==> Own(st', p) == Own(st, p))
    && (forall p :: Own(st, p).Dir? || Own(st, p).Table? ==> KeepsEntries(st, st', p))
  }

  /** What was not present in page p and now is, is in order. */
  ghost predicate NewEntriesOk(st: State, st': State, p: nat) {
    match Own(st', p)
    case Dir => forall i :: 0 <= i < ENTRIES && !Present(Get(st.mem, p, i)) ==> EntryOk(st', p, i)
    case Table(d, i) =>
      i < KERNPAGE / ENTRIES ==> forall j :: 0 <= j < ENTRIES && !Present(Get(st.mem, p, j)) ==> LeafOk(st', p, d, i, j)
    case _ => true
  }

  lemma LookupKept(st: State, st': State, d: nat, v: nat)
    requires Inv(st) && Extends(st, st') && Own(st, d) == Dir && v < VPAGES && Lookup(st.mem, d, v).Some?
    ensures Lookup(st'.mem, d, v) == Lookup(st.mem, d, v)
  {
    var i := v / ENTRIES;
    assert OwnerOk(st, d) && EntryOk(st, d, i);
    assert KeepsEntries(st, st', d) && KeepsEntries(st, st', PageOf(Get(st.mem, d, i)));
  }

  lemma OwnerKept(st: State, st': State, p: nat)
    requires Inv(st) && Extends(st, st') && p in st.owner && Own(st', p) == Own(st, p) && Structural(Own(st, p))
    requires NewEntriesOk(st, st', p)
    ensures OwnerOk(st', p)
  {
    assert OwnerOk(st, p);
    match Own(st, p)
    case Dir =>
      forall i | 0 <= i < ENTRIES ensures EntryOk(st', p, i) {
        assert EntryOk(st, p, i) && KeepsEntries(st, st', p);
      }
    case Table(d, i) =>
      assert KeepsEntries(st, st', d);
      if i < KERNPAGE / ENTRIES {
        forall j | 0 <= j < ENTRIES ensures LeafOk(st', p, d, i, j) {
          assert LeafOk(st, p, d, i, j) && KeepsEntries(st, st', p);
        }
      }
    case User(d, v) => LookupKept(st, st', d, v);
    case _ =>
  }

  // ---- the allocator ----

  ghost function Popped(st: State): State
    requires |st.free| > 0
  {
    var n := |st.free| - 1;
    State(st.mem, st.free[..n], st.owner[st.free[n] := Held])
  }

  lemma PopKeepsInv(st: State)
    requires Inv(st) && |st.free| > 0
    ensures Inv(Popped(st)) && Own(st, st.free[|st.free| - 1]).Free?
  {
    var st', p := Popped(st), st.free[|st.free| - 1];
    assert FreeOk(st, |st.free| - 1);
    forall k | 0 <= k < |st'.free| ensures FreeOk(st', k) {
      assert FreeOk(st, k);
    }
    assert Extends(st, st');
    forall q | q in st'.owner ensures OwnerOk(st', q) {
      assert OwnerOk(st, q);
      if Structural(Own(st, q)) {
        OwnerKept(st, st', q);
      }
    }
  }

  /** A freed page: every byte 1, then the link over the first word. */
  function Junk(next: nat): seq<nat> {
    [next] + seq(ENTRIES - 1, i => 0x0101_0101)
  }

  ghost function Pushed(st: State, p: nat): State
    requires p < |st.mem|
  {
    State(st.mem[p := Junk(Link(st.free, |st.free|))], st.free + [p], st.owner[p := Free(|st.free|)])
  }

  lemma PushKeepsInv(st: State, p: nat)
    requires Inv(st) && Own(st, p) == Held
    ensures Inv(Pushed(st, p))
  {
    var st' := Pushed(st, p);
    forall k | 0 <= k < |st'.free| ensures FreeOk(st', k) {
      if k < |st.free| {
        assert FreeOk(st, k);
      }
    }
    assert Extends(st, st');
    forall q | q in st'.owner ensures OwnerOk(st', q) {
      assert OwnerOk(st, q);
      if Structural(Own(st, q)) {
        OwnerKept(st, st', q);
      }
    }
  }

  // ---- building an address space ----

  function ZeroPage(): (page: seq<nat>)
    ensures |page| == ENTRIES && forall j :: 0 <= j < ENTRIES ==> page[j] == 0
  {
    seq(ENTRIES, i => 0)
  }

  /** The table page of virtual page v. */
  function TableOf(mem: seq<seq<nat>>, d: nat, v: nat): nat {
    PageOf(Get(mem, d, v / ENTRIES))
  }

  /** Nothing moved in any address space. */
  ghost predicate SameLookups(st: State, st': State) {
    forall e: nat, v: nat :: Own(st, e) == Dir && v < VPAGES ==> Lookup(st'.mem, e, v) == Lookup(st.mem, e, v)
  }

  lemma SameRowsSameLookups(st: State, st': State)
    requires Inv(st) && forall p: nat :: Own(st, p).Dir? || Own(st, p).Table? ==> p < |st'.mem| && st'.mem[p] == st.mem[p]
    ensures SameLookups(st, st')
  {
    forall e: nat, v: nat | Own(st, e) == Dir && v < VPAGES ensures Lookup(st'.mem, e, v) == Lookup(st.mem, e, v) {
      assert OwnerOk(st, e) && EntryOk(st, e, v / ENTRIES);
    }
  }

  ghost function WithDir(st: State, d: nat): State
    requires d < |st.mem|
  {
    State(st.mem[d := ZeroPage()], st.free, st.owner[d := Dir])
  }

  lemma DirKeepsInv(st: State, d: nat)
    requires Inv(st) && Own(st, d) == Held
    ensures Inv(WithDir(st, d)) && SameLookups(st, WithDir(st, d))
    ensures forall v: nat :: v < VPAGES ==> Lookup(WithDir(st, d).mem, d, v) == None
  {
    var st' := WithDir(st, d);
    SameRowsSameLookups(st, st');
    forall k | 0 <= k < |st'.free| ensures FreeOk(st', k) {
      assert FreeOk(st, k);
    }
    assert Extends(st, st');
    forall q | q in st'.owner ensures OwnerOk(st', q) {
      assert OwnerOk(st, q);
      if Structural(Own(st, q)) {
        OwnerKept(st, st', q);
      } else if q == d {
        assert forall i :: 0 <= i < ENTRIES ==> EntryOk(st', d, i);
      }
    }
  }

  ghost function WithTable(st: State, d: nat, i: nat, t: nat): State
    requires Shape(st) && d < |st.mem| && t < |st.mem| && i < ENTRIES
  {
    State(Put(st.mem[t := ZeroPage()], d, i, t * PAGE + 7), st.free, st.owner[t := Table(d, i)])
  }

  lemma TableEntries(st: State, d: nat, i: nat, t: nat)
    requires Inv(st) && Own(st, d) == Dir && Own(st, t) == Held && i < ENTRIES && !HasTable(st.mem, d, i)
    ensures var mem := WithTable(st, d, i, t).mem;
      && Get(mem, d, i) == t * PAGE + 7 && Present(Get(mem, d, i)) && PageOf(Get(mem, d, i)) == t
      && (forall p: nat, j: nat :: p != t && !(p == d && j == i) ==> Get(mem, p, j) == Get(st.mem, p, j))
      && (forall j: nat :: Get(mem, t, j) == 0)
  {
    hide OwnerOk, FreeOk, Present, PageOf;
    TableEntry(t);
  }

  lemma TableEntry(t: nat)
    ensures Present(t * PAGE + 7) && PageOf(t * PAGE + 7) == t
  {
  }

  lemma TableKeepsInv(st: State, d: nat, i: nat, t: nat)
    requires Inv(st) && Own(st, d) == Dir && Own(st, t) == Held && i < ENTRIES && !HasTable(st.mem, d, i)
    ensures Inv(WithTable(st, d, i, t)) && SameLookups(st, WithTable(st, d, i, t))
  {
    var st' := WithTable(st, d, i, t);
    TableEntries(st, d, i, t);
    forall k | 0 <= k < |st'.free| ensures FreeOk(st', k) {
      assert FreeOk(st, k);
    }
    assert Extends(st, st');
    forall q | q in st'.owner ensures OwnerOk(st', q) {
      assert OwnerOk(st, q);
      if Structural(Own(st, q)) {
        OwnerKept(st, st', q);
      }
    }
    forall e: nat, v: nat | Own(st, e) == Dir && v < VPAGES ensures Lookup(st'.mem, e, v) == Lookup(st.mem, e, v) {
      assert OwnerOk(st, e) && EntryOk(st, e, v / ENTRIES);
    }
  }

  ghost function WithLeaf(st: State, d: nat, v: nat, w: nat): State
    requires Shape(st) && TableOf(st.mem, d, v) < |st.mem|
  {
    State(Put(st.mem, TableOf(st.mem, d, v), v % ENTRIES, w), st.free,
          if v < KERNPAGE then st.owner[PageOf(w) := User(d, v)] else st.owner)
  }

  /** Entry w may go in at v: its table is there, the slot is empty, and a user page comes from the kernel's hands. */
  ghost predicate CanMap(st: State, d: nat, v: nat, w: nat) {
    && Own(st, d) == Dir && v < VPAGES && HasTable(st.mem, d, v / ENTRIES) && Lookup(st.mem, d, v) == None
    && Present(w) && (v < KERNPAGE ==> Own(st, PageOf(w)) == Held)
  }

  lemma LeafTable(st: State, d: nat, v: nat)
    requires Inv(st) && Own(st, d) == Dir && v < VPAGES && HasTable(st.mem, d, v / ENTRIES)
    ensures Own(st, TableOf(st.mem, d, v)) == Table(d, v / ENTRIES) && TableOf(st.mem, d, v) < |st.mem|
  {
    assert OwnerOk(st, d) && EntryOk(st, d, v / ENTRIES);
  }

  /** Exactly the lookup of v in d changes. */
  ghost predicate LookupUpdated(st: State, st': State, d: nat, v: nat, r: Option<nat>) {
    forall e: nat, x: nat :: Own(st, e) == Dir && x < VPAGES ==>
      Lookup(st'.mem, e, x) == if e == d && x == v then r else Lookup(st.mem, e, x)
  }

  lemma PutUpdatesLookup(st: State, d: nat, v: nat, w: nat, st': State)
    requires Inv(st) && Own(st, d) == Dir && v < VPAGES && HasTable(st.mem, d, v / ENTRIES)
    requires TableOf(st.mem, d, v) < |st.mem| && st'.mem == Put(st.mem, TableOf(st.mem, d, v), v % ENTRIES, w)
    ensures LookupUpdated(st, st', d, v, if Present(w) then Some(w) else None)
  {
    LeafTable(st, d, v);
    forall e: nat, x: nat | Own(st, e) == Dir && x < VPAGES
      ensures Lookup(st'.mem, e, x) == if e == d && x == v then if Present(w) then Some(w) else None else Lookup(st.mem, e, x)
    {
      assert OwnerOk(st, e) && EntryOk(st, e, x / ENTRIES);
      assert x == x / ENTRIES * ENTRIES + x % ENTRIES && v == v / ENTRIES * ENTRIES + v % ENTRIES;
    }
  }

  lemma LeafKeepsInv(st: State, d: nat, v: nat, w: nat)
    requires Inv(st) && CanMap(st, d, v, w)
    ensures TableOf(st.mem, d, v) < |st.mem| && Inv(WithLeaf(st, d, v, w))
    ensures LookupUpdated(st, WithLeaf(st, d, v, w), d, v, Some(w))
  {
    LeafTable(st, d, v);
    var st', t := WithLeaf(st, d, v, w), TableOf(st.mem, d, v);
    PutUpdatesLookup(st, d, v, w, st');
    forall k | 0 <= k < |st'.free| ensures FreeOk(st', k) {
      assert FreeOk(st, k);
    }
    assert Extends(st, st');
    forall q | q in st'.owner ensures OwnerOk(st', q) {
      assert OwnerOk(st, q);
      if Structural(Own(st, q)) {
        assert q == t ==> NewEntriesOk(st, st', q) by {
          assert v == v / ENTRIES * ENTRIES + v % ENTRIES;
        }
        OwnerKept(st, st', q);
      }
    }
  }

  // ---- taking an address space apart ----

  /** Virtual page v is cleared and its page is back in the kernel's hands. */
  ghost function WithoutLeaf(st: State, d: nat, v: nat): State
    requires Shape(st) && TableOf(st.mem, d, v) < |st.mem| && Lookup(st.mem, d, v).Some?
  {
    State(Put(st.mem, TableOf(st.mem, d, v), v % ENTRIES, 0), st.free, st.owner[PageOf(Lookup(st.mem, d, v).value) := Held])
  }

  /** A user page is mapped in one place only. */
  lemma MappedOnce(st: State, d: nat, v: nat, t: nat, e: nat, i: nat, j: nat)
    requires Inv(st) && Own(st, d) == Dir && v < KERNPAGE && Lookup(st.mem, d, v).Some?
    requires Own(st, t) == Table(e, i) && i < KERNPAGE / ENTRIES && j < ENTRIES && Present(Get(st.mem, t, j))
    requires PageOf(Get(st.mem, t, j)) == PageOf(Lookup(st.mem, d, v).value)
    ensures e == d && t == TableOf(st.mem, d, v) && j == v % ENTRIES
  {
    LeafTable(st, d, v);
    assert OwnerOk(st, TableOf(st.mem, d, v)) && LeafOk(st, TableOf(st.mem, d, v), d, v / ENTRIES, v % ENTRIES);
    assert OwnerOk(st, t) && LeafOk(st, t, e, i, j);
    assert v == v / ENTRIES * ENTRIES + v % ENTRIES;
  }

  lemma UnmapOwner(st: State, d: nat, v: nat)
    requires Inv(st) && Own(st, d) == Dir && v < KERNPAGE && Lookup(st.mem, d, v).Some?
    ensures TableOf(st.mem, d, v) < |st.mem| && Own(st, PageOf(Lookup(st.mem, d, v).value)) == User(d, v)
  {
    LeafTable(st, d, v);
    assert OwnerOk(st, TableOf(st.mem, d, v)) && LeafOk(st, TableOf(st.mem, d, v), d, v / ENTRIES, v % ENTRIES);
    assert v == v / ENTRIES * ENTRIES + v % ENTRIES;
  }

  lemma UnmapKeepsOwner(st: State, d: nat, v: nat, q: nat)
    requires Inv(st) && Own(st, d) == Dir && v < KERNPAGE && Lookup(st.mem, d, v).Some? && q in st.owner
    requires TableOf(st.mem, d, v) < |st.mem|
    requires LookupUpdated(st, WithoutLeaf(st, d, v), d, v, None)
    ensures OwnerOk(WithoutLeaf(st, d, v), q)
  {
    var st' := WithoutLeaf(st, d, v);
    UnmapOwner(st, d, v);
    LeafTable(st, d, v);
    assert OwnerOk(st, q);
    match Own(st, q)
    case Dir =>
      forall i | 0 <= i < ENTRIES ensures EntryOk(st', q, i) {
        assert EntryOk(st, q, i);
      }
    case Table(e, i) =>
      if i < KERNPAGE / ENTRIES {
        forall j | 0 <= j < ENTRIES ensures LeafOk(st', q, e, i, j) {
          assert LeafOk(st, q, e, i, j);
          if Present(Get(st.mem, q, j)) && PageOf(Get(st.mem, q, j)) == PageOf(Lookup(st.mem, d, v).value) {
            MappedOnce(st, d, v, q, e, i, j);
          }
        }
      }
    case _ =>
  }

  lemma UnmapKeepsInv(st: State, d: nat, v: nat)
    requires Inv(st) && Own(st, d) == Dir && v < KERNPAGE && Lookup(st.mem, d, v).Some?
    ensures TableOf(st.mem, d, v) < |st.mem| && Inv(WithoutLeaf(st, d, v))
    ensures LookupUpdated(st, WithoutLeaf(st, d, v), d, v, None)
  {
    UnmapOwner(st, d, v);
    LeafTable(st, d, v);
    var st' := WithoutLeaf(st, d, v);
    PutUpdatesLookup(st, d, v, 0, st');
    forall k | 0 <= k < |st'.free| ensures FreeOk(st', k) {
      assert FreeOk(st, k);
    }
    forall q | q in st'.owner ensures OwnerOk(st', q) {
      UnmapKeepsOwner(st, d, v, q);
    }
  }

  /** Directory d and its tables are back in the kernel's hands, still filled in. */
  ghost function Retired(st: State, d: nat): State {
    State(st.mem, st.free, map p | p in st.owner :: if p == d || (st.owner[p].Table? && st.owner[p].dir == d) then Held else st.owner[p])
  }

  lemma RetireKeepsInv(st: State, d: nat)
    requires Inv(st) && Own(st, d) == Dir && forall v: nat :: v < KERNPAGE ==> Lookup(st.mem, d, v) == None
    ensures Inv(Retired(st, d))
  {
    var st' := Retired(st, d);
    forall k | 0 <= k < |st'.free| ensures FreeOk(st', k) {
      assert FreeOk(st, k);
    }
    forall q | q in st'.owner ensures OwnerOk(st', q) {
      assert OwnerOk(st, q);
      match Own(st', q)
      case Dir =>
        forall i | 0 <= i < ENTRIES ensures EntryOk(st', q, i) {
          assert EntryOk(st, q, i);
        }
      case Table(e, i) =>
        if i < KERNPAGE / ENTRIES {
          forall j | 0 <= j < ENTRIES ensures LeafOk(st', q, e, i, j) {
            assert LeafOk(st, q, e, i, j);
          }
        }
      case _ =>
    }
  }

  // ---- what an operation on one address space leaves alone ----

  /** Page p belongs to another address space, to other kernel code or to the kernel image. */
  ghost predicate Elsewhere(st: State, p: nat, d: nat) {
    match Own(st, p)
    case Free(_) => false
    case Dir => p != d
    case Table(e, _) => e != d
    case User(e, _) => e != d
    case _ => true
  }

  function Row(mem: seq<seq<nat>>, p: nat): seq<nat> {
    if p < |mem| then mem[p] else []
  }

  ghost predicate SamePage(st: State, st': State, p: nat) {
    Own(st', p) == Own(st, p) && Row(st'.mem, p) == Row(st.mem, p)
  }

  /** Pages elsewhere keep owner and contents, and none comes to be elsewhere; pages lo up to hi are exempt. */
  ghost predicate Frame(st: State, st': State, d: nat, lo: nat, hi: nat) {
    && st'.owner.Keys == st.owner.Keys && |st'.mem| == |st.mem|
    && forall p: nat :: !(lo <= p < hi) && (Elsewhere(st, p, d) || Elsewhere(st', p, d)) ==> SamePage(st, st', p)
  }
}
