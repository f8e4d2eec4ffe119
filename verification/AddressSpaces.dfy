/** Whole address spaces: making the kernel's half, copying a parent, and giving everything back. */
module AddressSpaces {
  import opened Blocks
  import opened PageTables
  import opened Mappings

  // ---- taking an address space apart ----

  /** Page p once the address space of d is no more. */
  ghost predicate GonePage(st: State, st': State, d: nat, p: nat) {
    if Elsewhere(st, p, d) then SamePage(st, st', p) else Own(st', p).Free?
  }

  ghost predicate Gone(st: State, st': State, d: nat) {
    && Inv(st') && st'.owner.Keys == st.owner.Keys && |st'.mem| == |st.mem|
    && forall p: nat :: GonePage(st, st', d, p)
  }

  /** Page p while freevm frees the tables: those below entry i are free, the others and d are held. */
  ghost predicate EmptiedPage(st: State, st': State, d: nat, i: nat, p: nat) {
    match Own(st, p)
    case Table(e, k) => if e == d then if k < i then Own(st', p).Free? else Own(st', p) == Held else SamePage(st, st', p)
    case Dir => if p == d then Own(st', p) == Held && Row(st'.mem, p) == Row(st.mem, p) else SamePage(st, st', p)
    case Free(_) => Own(st', p).Free?
    case _ => SamePage(st, st', p)
  }

  ghost predicate Emptied(st: State, st': State, d: nat, i: nat) {
    && Inv(st') && st'.owner.Keys == st.owner.Keys && |st'.mem| == |st.mem|
    && forall p: nat :: EmptiedPage(st, st', d, i, p)
  }

  lemma RetiredEmptied(st: State, d: nat)
    requires Inv(st) && Own(st, d) == Dir && forall v: nat :: v < KERNPAGE ==> Lookup(st.mem, d, v) == None
    ensures Emptied(st, Retired(st, d), d, 0)
  {
    RetireKeepsInv(st, d);
  }

  lemma EmptiedPush(st: State, st': State, d: nat, i: nat, t: nat, p: nat)
    requires EmptiedPage(st, st', d, i, p) && t < |st'.mem| && Own(st, t) == Table(d, i) && Own(st, d) == Dir
    requires Own(st, p) == Table(d, i) ==> p == t
    ensures EmptiedPage(st, Pushed(st', t), d, i + 1, p)
  {
  }

  /** The table of entry i is freed next. */
  lemma EmptyNext(st: State, st': State, d: nat, i: nat)
    requires Inv(st) && Own(st, d) == Dir && Emptied(st, st', d, i) && i < ENTRIES && HasTable(st.mem, d, i)
    ensures var t := PageOf(Get(st.mem, d, i)); Own(st', t) == Held && t < |st'.mem| && Emptied(st, Pushed(st', t), d, i + 1)
  {
    hide FreeOk;
    var t, next := PageOf(Get(st.mem, d, i)), i + 1;
    assert OwnerOk(st, d) && EntryOk(st, d, i);
    assert EmptiedPage(st, st', d, i, t);
    PushKeepsInv(st', t);
    forall p: nat ensures EmptiedPage(st, Pushed(st', t), d, next, p) {
      assert EmptiedPage(st, st', d, i, p);
      assert p in st.owner ==> OwnerOk(st, p);
      EmptiedPush(st, st', d, i, t, p);
    }
  }

  lemma EmptySkip(st: State, st': State, d: nat, i: nat)
    requires Inv(st) && Own(st, d) == Dir && Emptied(st, st', d, i) && i < ENTRIES && !HasTable(st.mem, d, i)
    ensures Emptied(st, st', d, i + 1)
  {
    var next := i + 1;
    forall p: nat ensures EmptiedPage(st, st', d, next, p) {
      assert EmptiedPage(st, st', d, i, p);
      assert p in st.owner ==> OwnerOk(st, p);
    }
  }

  lemma EmptiedDir(st: State, st': State, d: nat, i: nat)
    requires Emptied(st, st', d, i) && Own(st, d) == Dir
    ensures Own(st', d) == Held && d < |st'.mem| && Row(st'.mem, d) == Row(st.mem, d) && Inv(st')
    ensures st'.owner.Keys == st.owner.Keys && |st'.mem| == |st.mem|
  {
    assert EmptiedPage(st, st', d, i, d);
  }

  lemma GoneOnePage(st: State, st1: State, st2: State, d: nat, p: nat)
    requires Inv(st1) && ClearsPage(st, st1, d, 0, KERNPAGE, p) && EmptiedPage(st1, st2, d, ENTRIES, p) && d < |st2.mem|
    requires Inv(st) && Own(st, d) == Dir
    ensures GonePage(st, Pushed(st2, d), d, p)
  {
    assert p in st.owner ==> OwnerOk(st, p);
    assert p in st1.owner ==> OwnerOk(st1, p);
  }

  /** With its user pages, its tables and itself freed, d is gone. */
  lemma EmptiedGone(st: State, st1: State, st2: State, d: nat)
    requires Inv(st) && Own(st, d) == Dir && Cleared(st, st1, d, 0, KERNPAGE) && Emptied(st1, st2, d, ENTRIES)
    ensures d < |st2.mem| && Own(st2, d) == Held && Gone(st, Pushed(st2, d), d)
  {
    hide Lookup, HasTable, FreeOk, OwnerOk, GonePage;
    EmptiedDir(st1, st2, d, ENTRIES);
    PushKeepsInv(st2, d);
    forall p: nat ensures GonePage(st, Pushed(st2, d), d, p) {
      assert ClearsPage(st, st1, d, 0, KERNPAGE, p) && EmptiedPage(st1, st2, d, ENTRIES, p);
      GoneOnePage(st, st1, st2, d, p);
    }
  }

  // ---- making one ----

  /** d was free and is now an empty directory. */
  ghost predicate NewDirectory(st: State, st': State, d: nat) {
    && Inv(st') && Own(st, d).Free? && Own(st', d) == Dir && st'.owner.Keys == st.owner.Keys && |st'.mem| == |st.mem|
    && (forall p: nat :: p != d ==> SamePage(st, st', p)) && |st'.free| == |st.free| - 1
    && (forall x: nat :: x < VPAGES ==> Lookup(st'.mem, d, x) == None)
    && (forall i: nat :: !HasTable(st'.mem, d, i))
  }

  lemma TakenDirectory(st: State, st1: State, d: nat)
    requires Taken(st, st1, d) && Row(st1.mem, d) == ZeroPage()
    ensures d < |st1.mem| && NewDirectory(st, WithDir(st1, d), d) && WithDir(st1, d).mem == st1.mem
  {
    DirKeepsInv(st1, d);
    assert st1.mem[d := ZeroPage()] == st1.mem;
    forall p: nat | p != d ensures SamePage(st, WithDir(st1, d), p) {
      assert SamePage(st, st1, p);
    }
    forall i: nat ensures !HasTable(st1.mem, d, i) {
      assert Get(st1.mem, d, i) == 0;
    }
  }

  /** Every page the operation took is free again. */
  ghost predicate GivenBack(st: State, st': State) {
    && Inv(st') && st'.owner.Keys == st.owner.Keys && |st'.mem| == |st.mem|
    && forall p: nat :: if Own(st, p).Free? then Own(st', p).Free? else SamePage(st, st', p)
  }

  lemma NotMine(st: State, d: nat, p: nat)
    requires Inv(st) && Own(st, d).Free? && !Own(st, p).Free?
    ensures Elsewhere(st, p, d)
  {
    assert p in st.owner ==> OwnerOk(st, p);
  }

  /** An address space made from nothing and then freed costs nothing. */
  lemma MadeAndGone(st: State, st1: State, st2: State, d: nat)
    requires Inv(st) && Own(st, d).Free? && Frame(st, st1, d, 0, 0) && Gone(st1, st2, d)
    ensures GivenBack(st, st2)
  {
    forall p: nat ensures if Own(st, p).Free? then Own(st2, p).Free? else SamePage(st, st2, p) {
      assert GonePage(st1, st2, d, p);
      if !Own(st, p).Free? {
        NotMine(st, d, p);
        assert SamePage(st, st1, p);
      } else {
        assert Elsewhere(st1, p, d) ==> SamePage(st, st1, p);
      }
    }
  }

  // ---- the kernel's half ----

  /** One entry of kmap, in pages: its first virtual and physical page, its length and permissions. */
  datatype Region = Region(virt: nat, phys: nat, n: nat, perm: nat)

  /** kmap, for a kernel whose data begins at physical page `data`. */
  function Kmap(data: nat): (r: seq<Region>)
    requires 0x100 < data < 0xE000
    ensures |r| == 4
  {
    [ Region(KERNPAGE, 0, 0x100, 2), Region(KERNPAGE + 0x100, 0x100, data - 0x100, 0),
      Region(KERNPAGE + data, data, 0xE000 - data, 2), Region(0xF_E000, 0xF_E000, 0x2000, 2) ]
  }

  /** What a kernel address maps to once the first k regions are mapped. */
  ghost function KernelPte(data: nat, k: nat, x: nat): Option<nat>
    requires 0x100 < data < 0xE000
  {
    if k > 0 && KERNPAGE <= x < KERNPAGE + 0x100 then Some(Pte(x - KERNPAGE, 2))
    else if k > 1 && KERNPAGE + 0x100 <= x < KERNPAGE + data then Some(Pte(x - KERNPAGE, 0))
    else if k > 2 && KERNPAGE + data <= x < KERNPAGE + 0xE000 then Some(Pte(x - KERNPAGE, 2))
    else if k > 3 && 0xF_E000 <= x < VPAGES then Some(Pte(x, 2))
    else None
  }

  /** Where the first k regions above KERNBASE end, and the tables they fill. */
  function KernelEnd(data: nat, k: nat): nat {
    if k == 0 then KERNPAGE else if k == 1 then KERNPAGE + 0x100 else if k == 2 then KERNPAGE + data else KERNPAGE + 0xE000
  }

  function TablesTo(n: nat): nat {
    (n + ENTRIES - 1) / ENTRIES
  }

  /** Tables an untouched stretch needs. */
  lemma {:induction false} MissingAll(mem: seq<seq<nat>>, d: nat, lo: nat, hi: nat)
    requires lo % ENTRIES == 0 && lo <= hi && forall v: nat :: lo <= v < hi ==> !HasTable(mem, d, v / ENTRIES)
    ensures Missing(mem, d, lo, hi) == TablesTo(hi - lo)
    decreases hi
  {
    if lo < hi {
      MissingAll(mem, d, lo, hi - 1);
      assert !HasTable(mem, d, (hi - 1) / ENTRIES);
    }
  }

  /** Needing tables for a range in two goes costs the same as in one. */
  lemma {:induction false} MissingSplit(st: State, st1: State, d: nat, lo: nat, mid: nat, hi: nat)
    requires lo <= mid <= hi <= VPAGES && AddsTables(st, st1, d, lo, mid - lo)
    ensures Missing(st.mem, d, lo, hi) == Missing(st.mem, d, lo, mid) + Missing(st1.mem, d, mid, hi)
    decreases hi
  {
    if mid < hi {
      MissingSplit(st, st1, d, lo, mid, hi - 1);
      var v := hi - 1;
      assert HasTable(st1.mem, d, v / ENTRIES) <==>
             HasTable(st.mem, d, v / ENTRIES) || (mid > lo && lo / ENTRIES <= v / ENTRIES <= (mid - 1) / ENTRIES);
      assert NeedsTable(st.mem, d, lo, v) <==> NeedsTable(st1.mem, d, mid, v);
    }
  }

  /** setupkvm after k regions, from the empty directory. */
  ghost predicate KernelMapped(st: State, st': State, d: nat, data: nat, k: nat)
    requires 0x100 < data < 0xE000
  {
    && Grows(st, st', d, 0, 0)
    && (forall x: nat :: x < VPAGES ==> Lookup(st'.mem, d, x) == KernelPte(data, k, x))
    && (k <= 3 ==> AddsTables(st, st', d, KERNPAGE, KernelEnd(data, k) - KERNPAGE))
    && |st'.free| + TablesTo(KernelEnd(data, k) - KERNPAGE) + (if k > 3 then 8 else 0) == |st.free|
  }

  lemma KernelNone(st: State, d: nat, data: nat)
    requires Inv(st) && Own(st, d) == Dir && 0x100 < data < 0xE000
    requires forall x: nat :: x < VPAGES ==> Lookup(st.mem, d, x) == None
    ensures KernelMapped(st, st, d, data, 0)
  {
  }

  lemma KernelMappable(st: State, st1: State, d: nat, data: nat, k: nat)
    requires 0x100 < data < 0xE000 && k < 4 && KernelMapped(st, st1, d, data, k)
    ensures var r := Kmap(data)[k]; Mappable(st1, d, r.virt, r.phys, r.n)
  {
    hide Inv, Lookup;
  }

  /** Region k takes the tables its predecessors left to make. */
  lemma KernelCost(st: State, st1: State, d: nat, data: nat, k: nat)
    requires 0x100 < data < 0xE000 && k < 4 && KernelMapped(st, st1, d, data, k)
    requires forall i: nat :: !HasTable(st.mem, d, i)
    ensures var r := Kmap(data)[k];
      Missing(st1.mem, d, r.virt, r.virt + r.n) ==
      if k < 3 then TablesTo(KernelEnd(data, k + 1) - KERNPAGE) - TablesTo(KernelEnd(data, k) - KERNPAGE) else 8
  {
    hide Inv, Lookup, Grows, HasTable;
    if k < 3 {
      MissingAll(st.mem, d, KERNPAGE, KernelEnd(data, k));
      MissingAll(st.mem, d, KERNPAGE, KernelEnd(data, k + 1));
      MissingSplit(st, st1, d, KERNPAGE, KernelEnd(data, k), KernelEnd(data, k + 1));
    } else {
      forall v: nat | 0xF_E000 <= v < VPAGES ensures !HasTable(st1.mem, d, v / ENTRIES) {
        assert HasTable(st1.mem, d, v / ENTRIES) <==>
               HasTable(st.mem, d, v / ENTRIES) || KERNPAGE / ENTRIES <= v / ENTRIES <= (KERNPAGE + 0xE000 - 1) / ENTRIES;
      }
      MissingAll(st1.mem, d, 0xF_E000, VPAGES);
    }
  }

  lemma AddsTablesTwice(st: State, st1: State, st2: State, d: nat, lo: nat, n: nat, m: nat)
    requires AddsTables(st, st1, d, lo, n) && AddsTables(st1, st2, d, lo + n, m) && m > 0
    ensures AddsTables(st, st2, d, lo, n + m)
  {
    hide HasTable;
    forall i: nat | i < ENTRIES
      ensures HasTable(st2.mem, d, i) <==> HasTable(st.mem, d, i) || lo / ENTRIES <= i <= (lo + n + m - 1) / ENTRIES
    {
      assert HasTable(st1.mem, d, i) <==> HasTable(st.mem, d, i) || (n > 0 && lo / ENTRIES <= i <= (lo + n - 1) / ENTRIES);
      assert n > 0 ==> (lo + n) / ENTRIES <= (lo + n - 1) / ENTRIES + 1;
    }
  }

  lemma KernelStep(st: State, st1: State, st2: State, d: nat, data: nat, k: nat)
    requires 0x100 < data < 0xE000 && k < 4 && KernelMapped(st, st1, d, data, k)
    requires forall i: nat :: !HasTable(st.mem, d, i)
    requires var r := Kmap(data)[k]; MappedTo(st1, st2, d, r.virt, r.phys, r.n, r.perm)
    ensures KernelMapped(st, st2, d, data, k + 1)
  {
    hide Inv, Lookup, Grows, HasTable, Missing, GivesPages;
    var r := Kmap(data)[k];
    KernelCost(st, st1, d, data, k);
    GrowsTwice(st, st1, st2, d, 0, 0, r.phys, r.phys, 0, 0);
    if k < 3 {
      AddsTablesTwice(st, st1, st2, d, KERNPAGE, KernelEnd(data, k) - KERNPAGE, r.n);
    }
    forall x: nat | x < VPAGES ensures Lookup(st2.mem, d, x) == KernelPte(data, k + 1, x) {
      assert Lookup(st1.mem, d, x) == KernelPte(data, k, x);
    }
  }

  /** Pages that setupkvm takes: the directory and its tables. */
  const KERNEL_COST := 65

  /** d is a new directory holding exactly the kernel's mappings; everyone else's pages are untouched. */
  ghost predicate KernelSpace(st: State, st': State, d: nat, data: nat)
    requires 0x100 < data < 0xE000
  {
    && Inv(st') && Own(st, d).Free? && Own(st', d) == Dir && Frame(st, st', d, 0, 0)
    && (forall x: nat :: x < VPAGES ==> Lookup(st'.mem, d, x) == KernelPte(data, 4, x))
    && (forall i: nat :: i < KERNPAGE / ENTRIES ==> !HasTable(st'.mem, d, i))
    && |st'.free| + KERNEL_COST == |st.free|
  }

  /** Kernel page x is where it belongs in physical memory, closed to user code, and writable unless it is kernel text. */
  ghost predicate KernelPage(mem: seq<seq<nat>>, d: nat, data: nat, x: nat) {
    && HasFlags(mem, d, x, if KERNPAGE + 0x100 <= x < KERNPAGE + data then 1 else 3)
    && Lookup(mem, d, x).value / PAGE == if x < 0xF_E000 then x - KERNPAGE else x
  }

  ghost predicate KernelFlags(mem: seq<seq<nat>>, d: nat, data: nat) {
    && (forall x: nat :: KERNPAGE <= x < KERNPAGE + 0xE000 ==> KernelPage(mem, d, data, x))
    && (forall x: nat :: 0xF_E000 <= x < VPAGES ==> KernelPage(mem, d, data, x))
  }

  lemma KernelPageThere(mem: seq<seq<nat>>, d: nat, data: nat, x: nat)
    requires 0x100 < data < 0xE000 && Lookup(mem, d, x) == KernelPte(data, 4, x)
    requires KERNPAGE <= x < KERNPAGE + 0xE000 || 0xF_E000 <= x < VPAGES
    ensures KernelPage(mem, d, data, x)
  {
    hide Inv, Lookup, Pte;
    PteParts(if x < 0xF_E000 then x - KERNPAGE else x, if KERNPAGE + 0x100 <= x < KERNPAGE + data then 0 else 2);
  }

  lemma KernelSpaceFlags(mem: seq<seq<nat>>, d: nat, data: nat)
    requires 0x100 < data < 0xE000 && forall x: nat :: KERNPAGE <= x < VPAGES ==> Lookup(mem, d, x) == KernelPte(data, 4, x)
    ensures KernelFlags(mem, d, data)
  {
    hide KernelPage, KernelPte, Lookup;
    forall x: nat | KERNPAGE <= x < KERNPAGE + 0xE000 ensures KernelPage(mem, d, data, x) {
      KernelPageThere(mem, d, data, x);
    }
    forall x: nat | 0xF_E000 <= x < VPAGES ensures KernelPage(mem, d, data, x) {
      KernelPageThere(mem, d, data, x);
    }
  }

  lemma KernelSpaceHas(st: State, st': State, d: nat, data: nat)
    requires 0x100 < data < 0xE000 && KernelSpace(st, st', d, data)
    ensures KernelFlags(st'.mem, d, data)
  {
    KernelSpaceFlags(st'.mem, d, data);
  }

  /** A new directory and the steps that fill it leave everyone else alone. */
  lemma DirectoryFrame(st: State, st1: State, st2: State, d: nat)
    requires NewDirectory(st, st1, d) && Grows(st1, st2, d, 0, 0)
    ensures Frame(st, st2, d, 0, 0)
  {
    hide Inv, Lookup, HasTable;
    assert Frame(st, st1, d, 0, 0);
    FrameTwice(st, st1, st2, d, 0, 0, 0, 0, 0, 0);
  }

  lemma KernelTables(st: State, st1: State, st2: State, d: nat, data: nat)
    requires 0x100 < data < 0xE000 && KernelMapped(st, st1, d, data, 3)
    requires forall i: nat :: !HasTable(st.mem, d, i)
    requires var r := Kmap(data)[3]; MappedTo(st1, st2, d, r.virt, r.phys, r.n, r.perm)
    ensures forall i: nat :: i < KERNPAGE / ENTRIES ==> !HasTable(st2.mem, d, i)
  {
    hide Inv, Lookup, Grows, HasTable, Missing, GivesPages;
    forall i: nat | i < KERNPAGE / ENTRIES ensures !HasTable(st2.mem, d, i) {
      assert !HasTable(st1.mem, d, i);
    }
  }

  // ---- copying a parent ----

  /** Another directory looks the same from outside. */
  lemma FrameLookup(st: State, st': State, e: nat, d: nat, x: nat)
    requires Inv(st) && Frame(st, st', e, 0, 0) && Own(st, d) == Dir && d != e && x < VPAGES
    ensures Own(st', d) == Dir && Lookup(st'.mem, d, x) == Lookup(st.mem, d, x)
    ensures x < KERNPAGE && Lookup(st.mem, d, x).Some? ==>
            Row(st'.mem, PageOf(Lookup(st.mem, d, x).value)) == Row(st.mem, PageOf(Lookup(st.mem, d, x).value))
    ensures HasTable(st'.mem, d, x / ENTRIES) == HasTable(st.mem, d, x / ENTRIES)
    ensures TableOf(st'.mem, d, x) == TableOf(st.mem, d, x)
  {
    assert OwnerOk(st, d) && EntryOk(st, d, x / ENTRIES);
    assert SamePage(st, st', d);
    var t := TableOf(st.mem, d, x);
    assert HasTable(st.mem, d, x / ENTRIES) ==> SamePage(st, st', t);
    if x < KERNPAGE && Lookup(st.mem, d, x).Some? {
      UnmapOwner(st, d, x);
      assert SamePage(st, st', PageOf(Lookup(st.mem, d, x).value));
    }
  }

  /** At x the child has a page of its own with the parent's contents and permissions. */
  ghost predicate CopyAt(st: State, st1: State, st': State, d: nat, e: nat, x: nat) {
    var r := Lookup(st.mem, d, x);
    r.Some? && PageAt(st1, st', e, x, Row(st.mem, PageOf(r.value)), r.value % PAGE)
  }

  /** The child's first n pages are copies; st is the state before the fork and st1 the one after setupkvm. */
  ghost predicate Copied(st: State, st1: State, st': State, d: nat, e: nat, n: nat) {
    Grew(st1, st', e, 0, n) && forall x: nat :: x < n ==> CopyAt(st, st1, st', d, e, x)
  }

  lemma CopyStep(st: State, st1: State, st2: State, st3: State, st4: State, d: nat, e: nat, v: nat, u: nat, w: nat)
    requires Copied(st, st1, st2, d, e, v) && Inv(st2) && v < KERNPAGE && Lookup(st.mem, d, v) == Some(w)
    requires Taken(st2, st3, u) && Row(st3.mem, u) == Row(st.mem, PageOf(w)) && MappedTo(st3, st4, e, v, u, 1, w % PAGE)
    ensures Copied(st, st1, st4, d, e, v + 1)
  {
    hide Inv, Grew, Taken, MappedTo, PageAt, Lookup;
    GrowStep(st1, st2, st3, st4, e, 0, v, u, w % PAGE);
    GrowNew(st1, st2, st3, st4, e, 0, v, u, w % PAGE);
    forall x: nat | x < v ensures CopyAt(st, st1, st4, d, e, x) {
      assert CopyAt(st, st1, st2, d, e, x);
      var r := Lookup(st.mem, d, x).value;
      GrowOld(st1, st2, st3, st4, e, 0, v, u, w % PAGE, x, Row(st.mem, PageOf(r)), r % PAGE);
    }
  }

  /** A page taken and given straight back. */
  lemma TakenBack(st: State, st1: State, e: nat, u: nat)
    requires Inv(st) && Own(st, e) == Dir && Taken(st, st1, u)
    ensures u < |st1.mem| && Inv(Pushed(st1, u)) && Own(Pushed(st1, u), e) == Dir && Frame(st, Pushed(st1, u), e, 0, 0)
  {
    hide Lookup, OwnerOk, FreeOk;
    PushKeepsInv(st1, u);
    var st' := Pushed(st1, u);
    assert SamePage(st, st1, e);
    forall p: nat | Elsewhere(st, p, e) || Elsewhere(st', p, e) ensures SamePage(st, st', p) {
      assert p != u ==> SamePage(st, st1, p);
    }
  }

  /** A child from nothing to n copied pages costs its kernel half, its pages and their tables. */
  lemma CopyCost(st: State, st1: State, st': State, e: nat, data: nat, n: nat)
    requires 0x100 < data < 0xE000 && KernelSpace(st, st1, e, data) && Grew(st1, st', e, 0, n) && n <= KERNPAGE
    ensures |st'.free| + KERNEL_COST + n + TablesTo(n) == |st.free|
  {
    hide Inv, Lookup, Grows, HasTable;
    assert forall v: nat :: 0 <= v < n ==> v / ENTRIES < KERNPAGE / ENTRIES;
    MissingAll(st1.mem, e, 0, n);
  }

  /** The child e maps its own copies of d's first n pages and the kernel's half; all other pages are untouched. */
  ghost predicate Forked(st: State, st': State, d: nat, e: nat, data: nat, n: nat)
    requires 0x100 < data < 0xE000
  {
    && Inv(st') && Own(st, e).Free? && Own(st', e) == Dir && Frame(st, st', e, 0, 0)
    && (forall x: nat :: x < n ==> CopyAt(st, st, st', d, e, x))
    && (forall x: nat :: n <= x < VPAGES ==> Lookup(st'.mem, e, x) == KernelPte(data, 4, x))
  }

  /** Page x of e has the flags of page x of d. */
  ghost predicate SameFlags(mem: seq<seq<nat>>, d: nat, mem': seq<seq<nat>>, e: nat, x: nat) {
    && Lookup(mem, d, x).Some? && Lookup(mem', e, x).Some?
    && Lookup(mem', e, x).value % PAGE == Lookup(mem, d, x).value % PAGE
  }

  lemma ForkedFlags(st: State, st': State, d: nat, e: nat, data: nat, n: nat)
    requires 0x100 < data < 0xE000 && Forked(st, st', d, e, data, n)
    ensures forall x: nat :: x < n ==> SameFlags(st.mem, d, st'.mem, e, x)
    ensures n <= KERNPAGE ==> KernelFlags(st'.mem, e, data)
  {
    hide Inv, Pte, Frame, KernelFlags, KernelPte;
    if n <= KERNPAGE {
      KernelSpaceFlags(st'.mem, e, data);
    }
    forall x: nat | x < n ensures SameFlags(st.mem, d, st'.mem, e, x) {
      assert CopyAt(st, st, st', d, e, x);
    }
  }

  lemma CopyAtEarlier(st: State, st1: State, st': State, d: nat, e: nat, x: nat)
    requires Inv(st) && Own(st, e).Free? && Frame(st, st1, e, 0, 0) && CopyAt(st, st1, st', d, e, x)
    ensures CopyAt(st, st, st', d, e, x)
  {
    var u := PageOf(Lookup(st'.mem, e, x).value);
    assert Elsewhere(st, u, e) ==> SamePage(st, st1, u);
    if !Own(st, u).Free? {
      NotMine(st, e, u);
    }
  }

  lemma CopyFrame(st: State, st1: State, st': State, e: nat, data: nat, n: nat)
    requires 0x100 < data < 0xE000 && KernelSpace(st, st1, e, data) && Grew(st1, st', e, 0, n)
    ensures Frame(st, st', e, 0, 0) && Own(st', e) == Dir && Inv(st') && Own(st, e).Free?
  {
    hide Inv, Lookup, HasTable;
    FrameTwice(st, st1, st', e, 0, 0, 0, 0, 0, 0);
  }

  lemma CopyDone(st: State, st1: State, st': State, d: nat, e: nat, data: nat, n: nat)
    requires 0x100 < data < 0xE000 && Inv(st) && KernelSpace(st, st1, e, data) && Copied(st, st1, st', d, e, n) && n <= KERNPAGE
    ensures Forked(st, st', d, e, data, n)
  {
    hide Inv, Lookup, HasTable, CopyAt, Frame;
    CopyFrame(st, st1, st', e, data, n);
    forall x: nat | x < n ensures CopyAt(st, st, st', d, e, x) {
      CopyAtEarlier(st, st1, st', d, e, x);
    }
  }

  /** The child's next page can be made from the parent's. */
  lemma CopySource(st: State, st1: State, st2: State, d: nat, e: nat, data: nat, v: nat)
    requires 0x100 < data < 0xE000 && Inv(st) && KernelSpace(st, st1, e, data) && Grew(st1, st2, e, 0, v) && v < KERNPAGE
    requires Own(st, d) == Dir && Lookup(st.mem, d, v).Some?
    ensures Own(st2, d) == Dir && HasTable(st2.mem, d, v / ENTRIES)
    ensures var w := Lookup(st.mem, d, v).value;
      && Present(Get(st2.mem, TableOf(st2.mem, d, v), v % ENTRIES)) && Get(st2.mem, TableOf(st2.mem, d, v), v % ENTRIES) == w
      && |Row(st2.mem, PageOf(w))| == ENTRIES && Row(st2.mem, PageOf(w)) == Row(st.mem, PageOf(w))
      && w == PageOf(w) * PAGE + w % PAGE && (w % PAGE) % 2 == 1
    ensures Lookup(st1.mem, e, v) == None
  {
    CopyFrame(st, st1, st2, e, data, v);
    FrameLookup(st, st2, e, d, v);
    UnmapOwner(st, d, v);
  }

  lemma CopyStuck(st: State, st1: State, st2: State, e: nat, data: nat, v: nat, n: nat)
    requires 0x100 < data < 0xE000 && KernelSpace(st, st1, e, data) && Grew(st1, st2, e, 0, v) && v < n <= KERNPAGE
    requires |st2.free| < 1 + if HasTable(st2.mem, e, v / ENTRIES) then 0 else 1
    ensures |st.free| < KERNEL_COST + n + TablesTo(n)
  {
    hide Inv, Lookup, Grows, HasTable, Frame;
    GrowStuck(st1, st2, e, 0, v, n);
    assert forall x: nat :: 0 <= x < n ==> x / ENTRIES < KERNPAGE / ENTRIES;
    MissingAll(st1.mem, e, 0, n);
  }
}
