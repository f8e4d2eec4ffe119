/** The page allocator of kalloc.c and the page-table operations of vm.c, over physical memory changed in place. */
module VirtualMemory {
  import opened Blocks
  import opened PageTables
  import opened Mappings
  import opened AddressSpaces

  /** PHYSTOP in pages. */
  const PHYSPAGES := 0xE000

  lemma P2VInverse(p: nat)
    ensures P2V(p) >= KERNBASE && (P2V(p) - KERNBASE) % PAGE == 0 && (P2V(p) - KERNBASE) / PAGE == p
  {
  }

  ghost predicate FreeListOk(st: State) {
    Shape(st) && forall k :: 0 <= k < |st.free| ==> FreeOk(st, k)
  }

  ghost function AllHeld(lo: nat, hi: nat): (m: map<nat, Owner>)
    ensures forall p: nat :: p in m <==> lo <= p < hi
    ensures forall p: nat :: p in m ==> m[p] == Held
    decreases hi
  {
    if hi <= lo then map[] else AllHeld(lo, hi - 1)[hi - 1 := Held]
  }

  /** The first whole page at or after a kernel address, and the one an address lies in. */
  function PageUp(v: nat): nat
    requires v >= KERNBASE
  {
    (v - KERNBASE + PAGE - 1) / PAGE
  }

  function PageDown(v: nat): nat
    requires v >= KERNBASE
  {
    (v - KERNBASE) / PAGE
  }

  /** Page v of directory d is mapped for user code. */
  predicate UserPage(mem: seq<seq<nat>>, d: nat, v: nat) {
    Lookup(mem, d, v).Some? && Lookup(mem, d, v).value / 4 % 2 == 1
  }

  class Machine {
    var mem: seq<seq<nat>>
    /** Kernel address of the first free page, or 0. */
    var head: nat
    /** The first page after the kernel image. */
    const first: nat
    /** The first physical page of the kernel's data. */
    const data: nat
    ghost var free: seq<nat>
    ghost var owner: map<nat, Owner>

    ghost function St(): State
      reads this
    {
      State(mem, free, owner)
    }

    ghost predicate Linked()
      reads this
    {
      && |mem| == PHYSPAGES && 0 < first <= PHYSPAGES && 0x100 < data < PHYSPAGES && FreeListOk(St()) && head == Link(free, |free|)
      && (forall p :: p in owner <==> first <= p < PHYSPAGES)
    }

    ghost predicate Valid()
      reads this
    {
      Linked() && Inv(St())
    }

    /** Memory as the boot loader leaves it: no page is free yet. */
    constructor (first: nat, data: nat, mem: seq<seq<nat>>)
      requires 0 < first <= PHYSPAGES && 0x100 < data < PHYSPAGES && |mem| == PHYSPAGES && forall p :: 0 <= p < |mem| ==> |mem[p]| == ENTRIES
      ensures Valid() && free == [] && this.first == first && this.data == data && this.mem == mem
      ensures forall p: nat :: first <= p < PHYSPAGES ==> Own(St(), p) == Held
    {
      this.first, this.data, this.mem, head := first, data, mem, 0;
      free, owner := [], AllHeld(first, PHYSPAGES);
      new;
      assert forall p :: p in owner ==> OwnerOk(St(), p);
    }

    ghost method Become(st: State)
      requires st.mem == mem
      modifies `free, `owner
      ensures St() == st
    {
      free, owner := st.free, st.owner;
    }

    /** kfree; false is its panic. */
    method Kfree(v: nat) returns (ok: bool)
      requires Linked() && v < 0x1_0000_0000
      requires v >= KERNBASE ==> !Own(St(), (v - KERNBASE) / PAGE).Free?
      modifies this
      ensures ok <==> v % PAGE == 0 && v >= KERNBASE && first <= (v - KERNBASE) / PAGE < PHYSPAGES
      ensures ok ==> Linked() && St() == Pushed(old(St()), (v - KERNBASE) / PAGE)
      ensures ok ==> var p := (v - KERNBASE) / PAGE;
                && head == v && mem[p][0] == old(head) && (forall j :: 0 < j < ENTRIES ==> mem[p][j] == 0x0101_0101)
                && forall q :: 0 <= q < |mem| && q != p ==> mem[q] == old(mem)[q]
      ensures !ok ==> St() == old(St()) && head == old(head)
    {
      if v % PAGE != 0 || v < KERNBASE + first * PAGE || v - KERNBASE >= PHYSPAGES * PAGE {
        return false;
      }
      ghost var st := St();
      var p := (v - KERNBASE) / PAGE;
      mem := mem[p := Junk(head)];
      head := v;
      Become(Pushed(st, p));
      forall k | 0 <= k < |free| ensures FreeOk(St(), k) {
        if k < |st.free| {
          assert FreeOk(st, k);
        }
      }
      ok := true;
    }

    /** kalloc, from a list that may be used in the middle of an operation. */
    method Kalloc() returns (r: Option<nat>)
      requires Linked()
      modifies this
      ensures Linked()
      ensures r.None? <==> old(free) == []
      ensures r.None? ==> St() == old(St())
      ensures r.Some? ==> St() == Popped(old(St())) && r.value == old(free)[|old(free)| - 1] < PHYSPAGES
    {
      if head == 0 {
        assert free == [];
        return None;
      }
      ghost var st := St();
      assert FreeOk(st, |free| - 1);
      P2VInverse(free[|free| - 1]);
      var p := (head - KERNBASE) / PAGE;
      head := mem[p][0];
      Become(Popped(st));
      forall k | 0 <= k < |free| ensures FreeOk(St(), k) {
        assert FreeOk(st, k);
      }
      r := Some(p);
    }

    /** freerange: the whole pages between vstart and vend, each once. */
    method Freerange(vstart: nat, vend: nat)
      requires Valid() && vstart >= KERNBASE && first <= PageUp(vstart) && KERNBASE <= vend <= P2V(PHYSPAGES)
      requires forall p: nat :: PageUp(vstart) <= p < PageDown(vend) ==> Own(St(), p) == Held
      modifies this
      ensures Valid()
      ensures forall p: nat :: Own(St(), p).Free? <==> old(Own(St(), p)).Free? || PageUp(vstart) <= p < PageDown(vend)
      ensures forall p: nat :: Own(St(), p).Free? <==> old(Own(St(), p)).Free? || Between(p, vstart, vend)
      ensures forall p: nat :: !Own(St(), p).Free? ==> SamePage(old(St()), St(), p)
    {
      hide Inv, FreeListOk, Between;
      var v := (vstart + PAGE - 1) / PAGE * PAGE;
      ghost var st := St();
      ghost var p: nat := PageUp(vstart);
      while v + PAGE <= vend
        invariant Valid() && v == P2V(p) && PageUp(vstart) <= p && (PageUp(vstart) < p ==> p <= PageDown(vend))
        invariant forall q: nat :: Own(St(), q).Free? <==> Own(st, q).Free? || PageUp(vstart) <= q < p
        invariant forall q: nat :: !Own(St(), q).Free? ==> SamePage(st, St(), q)
      {
        P2VInverse(p);
        assert !Own(St(), p).Free?;
        PushKeepsInv(St(), p);
        ghost var st1 := St();
        var ok := Kfree(v);
        assert ok && forall q: nat :: Own(St(), q) == if q == p then Free(|st1.free|) else Own(st1, q);
        v := v + PAGE;
        p := p + 1;
      }
      forall q: nat ensures Between(q, vstart, vend) <==> PageUp(vstart) <= q < PageDown(vend) {
        WholePages(vstart, vend, q);
      }
    }
  
    /** walkpgdir: the page of v's table, made on demand if alloc. */
    method Walk(d: nat, v: nat, alloc: bool) returns (r: Option<nat>)
      requires Valid() && Own(St(), d) == Dir && v < VPAGES
      modifies this
      ensures Valid()
      ensures HasTable(old(mem), d, v / ENTRIES) || !alloc || old(free) == [] ==> St() == old(St())
      ensures HasTable(old(mem), d, v / ENTRIES) ==> r == Some(TableOf(old(mem), d, v))
      ensures !HasTable(old(mem), d, v / ENTRIES) ==> (r.None? <==> !alloc || old(free) == [])
      ensures !HasTable(old(mem), d, v / ENTRIES) && r.Some? ==>
              r.value == TableOf(mem, d, v) && TableAdded(old(St()), St(), d, v / ENTRIES)
      ensures r.Some? ==> Get(mem, d, v / ENTRIES) == r.value * PAGE + 7
    {
      hide Inv, TableAdded, WithTable;
      var i := v / ENTRIES;
      if Present(Get(mem, d, i)) {
        DirectoryFlags(St(), d, i);
        return Some(PageOf(Get(mem, d, i)));
      }
      if !alloc {
        return None;
      }
      ghost var st := St();
      r := Kalloc();
      if r.Some? {
        NewTableAdds(st, d, i);
        TablePage(st, d, i);
        var t := r.value;
        mem := mem[t := ZeroPage()];
        mem := Put(mem, d, i, t * PAGE + 7);
        Become(NewTable(st, d, i));
        TableAddedInv(st, St(), d, i);
      }
    }

    /** Write one entry through a table page found by Walk. */
    method SetEntry(d: nat, t: nat, v: nat, w: nat)
      requires Valid() && CanMap(St(), d, v, w) && t == TableOf(mem, d, v)
      modifies this
      ensures Valid() && LeafAdded(old(St()), St(), d, v, w)
    {
      hide Inv, LeafAdded, CanMap;
      ghost var st := St();
      LeafAdds(st, d, v, w);
      TableRow(st, d, v, w);
      assert !Present(Get(mem, t, v % ENTRIES));  // or else panic("remap")
      mem := Put(mem, t, v % ENTRIES, w);
      Become(WithLeaf(st, d, v, w));
      LeafAddedInv(st, St(), d, v, w);
    }

    /** mappages: all pages of [va, va + size), or as many as the free pages allow. It never meets a mapped page. */
    method Mappages(d: nat, va: nat, size: nat, pa: nat, perm: nat) returns (ok: bool, ghost n: nat)
      requires Valid() && 0 < size && va + size <= 0x1_0000_0000 && pa % PAGE == 0 && perm < PAGE
      requires Mappable(St(), d, va / PAGE, pa / PAGE, (va + size - 1) / PAGE - va / PAGE + 1)
      modifies this
      ensures Valid() && MappedTo(old(St()), St(), d, va / PAGE, pa / PAGE, n, perm)
      ensures ok ==> n == (va + size - 1) / PAGE - va / PAGE + 1
      ensures !ok ==> n < (va + size - 1) / PAGE - va / PAGE + 1 && free == []
      ensures n == 0 ==> St() == old(St())
      ensures ok ==> forall x: nat :: va / PAGE <= x <= (va + size - 1) / PAGE ==>
                HasFlags(mem, d, x, perm) && Lookup(mem, d, x).value / PAGE == pa / PAGE + x - va / PAGE
      ensures ok <==> |old(free)| >= Missing(old(mem), d, va / PAGE, (va + size - 1) / PAGE + 1)
    {
      hide Inv, MappedTo, TableAdded, LeafAdded, CanMap, Missing, HasTable, HasFlags, Lookup;
      ghost var st := St();
      var a, last, q := va / PAGE, (va + size - 1) / PAGE, pa / PAGE;
      ghost var total := last - a + 1;
      n := 0;
      MappedNone(st, d, a, q, perm);
      while true
        invariant Valid() && MappedTo(st, St(), d, va / PAGE, pa / PAGE, n, perm)
        invariant a == va / PAGE + n <= last && q == pa / PAGE + n && n < total && (n == 0 ==> St() == st)
        decreases last - a
      {
        ghost var st1 := St();
        MappedDir(st, st1, d, va / PAGE, pa / PAGE, n, perm);
        var t := Walk(d, a, true);
        if t.None? {
          MapStuck(st, st1, d, va / PAGE, pa / PAGE, n, total, perm);
          return false, n;
        }
        if HasTable(st1.mem, d, a / ENTRIES) {
          TableAlready(st1, d, a / ENTRIES);
        }
        ghost var st2 := St();
        MappableLess(st, d, va / PAGE, pa / PAGE, n + 1, total);
        MapTable(st, st1, st2, d, va / PAGE, pa / PAGE, n, perm);
        SetEntry(d, t.value, a, Pte(q, perm));
        MapStep(st, st1, st2, St(), d, va / PAGE, pa / PAGE, n, perm);
        n := n + 1;
        if a == last {
          break;
        }
        a := a + 1;
        q := q + 1;
      }
      MappedCount(st, St(), d, va / PAGE, pa / PAGE, n, perm);
      MapsFlags(st, St(), d, va / PAGE, pa / PAGE, n, perm);
      ok := true;
    }

    /** deallocuvm's middle branch: free the page, then clear the entry. Its two panics cannot happen. */
    method Release(d: nat, t: nat, v: nat)
      requires Valid() && Own(St(), d) == Dir && v < KERNPAGE && Lookup(mem, d, v).Some? && t == TableOf(mem, d, v)
      modifies this
      ensures Valid() && Cleared(old(St()), St(), d, v, v + 1)
    {
      hide Inv, Cleared, FreeListOk;
      ghost var st := St();
      ReleaseClears(st, d, v);
      ReleaseMem(st, d, v, head);
      var u := PageOf(Get(mem, t, v % ENTRIES));
      P2VInverse(u);
      var ok := Kfree(P2V(u));
      assert ok;
      mem := Put(mem, t, v % ENTRIES, 0);
      Become(Released(st, d, v));
      ClearedInv(st, St(), d, v, v + 1);
    }

    /** deallocuvm: jumping over absent tables skips no mapped page, and the loop ends. */
    method Deallocuvm(d: nat, oldsz: nat, newsz: nat) returns (sz: nat)
      requires Valid() && Own(St(), d) == Dir && oldsz <= KERNBASE
      modifies this
      ensures Valid() && sz == if newsz >= oldsz then oldsz else newsz
      ensures newsz >= oldsz ==> St() == old(St())
      ensures Cleared(old(St()), St(), d, Pages(newsz), Pages(oldsz))
    {
      hide Inv, Cleared, FreeListOk;
      ghost var st := St();
      if newsz >= oldsz {
        ClearedAbsent(st, d, Pages(newsz), Pages(oldsz));
        return oldsz;
      }
      ghost var lo, hi := Pages(newsz), Pages(oldsz);
      var a := Pages(newsz) * PAGE;
      ClearedAbsent(st, d, lo, lo);
      ghost var done := lo;
      while a < oldsz
        invariant Valid() && a % PAGE == 0 && lo <= done <= hi
        invariant done == if a / PAGE < hi then a / PAGE else hi
        invariant Cleared(st, St(), d, lo, done)
        decreases oldsz - a
      {
        ghost var st1, was := St(), done;
        ClearedInv(st, st1, d, lo, done);
        var v := a / PAGE;
        var t := Walk(d, v, false);
        if t.None? {
          AbsentTable(mem, d, v);
          a := (v / ENTRIES + 1) * ENTRIES * PAGE - PAGE;
          done := if a / PAGE + 1 < hi then a / PAGE + 1 else hi;
          ClearedAbsent(st1, d, v, done);
        } else {
          done := v + 1;
          if Present(Get(mem, t.value, v % ENTRIES)) {
            Release(d, t.value, v);
          } else {
            ClearedAbsent(st1, d, v, v + 1);
          }
        }
        ClearedTwice(st, st1, St(), d, lo, was, done);
        a := a + PAGE;
      }
      sz := newsz;
    }

    /** kalloc, then memset or memmove over the whole page. */
    method KallocFilled(page: seq<nat>) returns (r: Option<nat>)
      requires Valid() && |page| == ENTRIES
      modifies this
      ensures Valid() && (r.None? <==> old(free) == [])
      ensures r.None? ==> St() == old(St())
      ensures r.Some? ==> Taken(old(St()), St(), r.value) && r.value < PHYSPAGES && Row(mem, r.value) == page
    {
      hide Inv, Taken, FreeListOk;
      ghost var st := St();
      r := Kalloc();
      if r.Some? {
        mem := mem[r.value := page];
        FilledIsTaken(st, page);
        Become(Filled(st, page));
        TakenInv(st, St(), r.value);
      }
    }

    /** allocuvm's failure after the page for a was taken but not mapped. */
    method GiveUp(d: nat, oldsz: nat, newsz: nat, u: nat, ghost st: State, ghost st1: State, ghost v: nat)
      requires Valid() && oldsz <= newsz < KERNBASE && Inv(st) && Own(st, d) == Dir && Pages(oldsz) <= v < Pages(newsz)
      requires Taken(st1, St(), u) && Inv(st1) && Grew(st, st1, d, Pages(oldsz), v)
      requires forall x: nat :: Pages(oldsz) <= x < Pages(newsz) ==> Lookup(st.mem, d, x) == None
      modifies this
      ensures Valid() && Restored(st, St(), d)
    {
      hide Inv, Taken, FreeListOk, Grew, Cleared, Restored, Lookup;
      ghost var st2 := St();
      GrownDir(st, st1, st2, d, Pages(oldsz), v, u);
      var sz := Deallocuvm(d, newsz, oldsz);
      ghost var st3 := St();
      ClearedAround(st1, st2, st3, d, Pages(oldsz), Pages(newsz), u);
      P2VInverse(u);
      var ok := Kfree(P2V(u));
      RollBack(st, st1, Pushed(st3, u), d, Pages(oldsz), v, Pages(newsz));
      ClearedInv(st1, St(), d, Pages(oldsz), Pages(newsz));
    }

    /** allocuvm: all the pages, fresh and zeroed, or the user mapping as it was. */
    method Allocuvm(d: nat, oldsz: nat, newsz: nat) returns (sz: nat)
      requires Valid() && Own(St(), d) == Dir
      requires newsz < KERNBASE ==> forall x: nat :: Pages(oldsz) <= x < Pages(newsz) ==> Lookup(mem, d, x) == None
      modifies this
      ensures Valid()
      ensures newsz >= KERNBASE ==> sz == 0 && St() == old(St())
      ensures newsz < KERNBASE && newsz < oldsz ==> sz == oldsz && St() == old(St())
      ensures oldsz <= newsz < KERNBASE ==>
                var lo, hi := Pages(oldsz), Pages(newsz);
                if |old(free)| >= hi - lo + Missing(old(mem), d, lo, hi)
                then sz == newsz && GrownBy(old(St()), St(), d, lo, hi)
                     && forall x: nat :: lo <= x < hi ==> HasFlags(mem, d, x, 7)
                else sz == 0 && Restored(old(St()), St(), d)
    {
      hide Inv, Taken, FreeListOk, Grew, PageAt, Cleared, Restored, Missing, Lookup, HasTable, MappedTo, Mappable, HasFlags;
      if newsz >= KERNBASE {
        return 0;
      }
      if newsz < oldsz {
        return oldsz;
      }
      ghost var st, lo, hi := St(), Pages(oldsz), Pages(newsz);
      var a := Pages(oldsz) * PAGE;
      ghost var v := lo;
      GrewNone(st, d, lo);
      while a < newsz
        invariant Valid() && a == v * PAGE && lo <= v <= hi && GrownBy(st, St(), d, lo, v)
        decreases newsz - a
      {
        ghost var st1 := St();
        GrownDir1(st, st1, d, lo, v);
        var page := KallocFilled(ZeroPage());
        if page.None? {
          GrowStuck(st, st1, d, lo, v, hi);
          var _ := Deallocuvm(d, newsz, oldsz);
          RollBack(st, st1, St(), d, lo, v, hi);
          return 0;
        }
        ghost var st2 := St();
        TakenMappable(st, st1, st2, d, lo, v, page.value);
        var ok, n := Mappages(d, a, PAGE, page.value * PAGE, 6);
        if !ok {
          TakenCount(st1, st2, page.value);
          GrowStuck(st, st1, d, lo, v, hi);
          GiveUp(d, oldsz, newsz, page.value, st, st1, v);
          return 0;
        }
        GrowStep(st, st1, st2, St(), d, lo, v, page.value, 6);
        GrowZero(st, st1, st2, St(), d, lo, v, page.value);
        v := v + 1;
        a := a + PAGE;
      }
      GrownCount(st, St(), d, lo, hi);
      GrownFlags(st, St(), d, lo, hi);
      sz := newsz;
    }

    /** freevm: every page reachable from d returns to the free list, and no other page is touched. */
    method Freevm(d: nat)
      requires Valid() && Own(St(), d) == Dir
      modifies this
      ensures Valid() && Gone(old(St()), St(), d)
    {
      hide Inv, FreeListOk, Cleared, Emptied, Gone, HasTable;
      ghost var st := St();
      var _ := Deallocuvm(d, KERNBASE, 0);
      ghost var st1 := St();
      ClearedAll(st, st1, d);
      RetiredEmptied(st1, d);
      Become(Retired(st1, d));
      EmptiedDir(st1, St(), d, 0);
      InvFreeList(St());
      var i := 0;
      while i < ENTRIES
        invariant 0 <= i <= ENTRIES && Linked() && Emptied(st1, St(), d, i)
      {
        EmptiedDir(st1, St(), d, i);
        SameGet(st1.mem, mem, d, i);
        if Present(Get(mem, d, i)) {
          EmptyNext(st1, St(), d, i);
          P2VInverse(PageOf(Get(mem, d, i)));
          var _ := Kfree(P2V(PageOf(Get(mem, d, i))));
        } else {
          EmptySkip(st1, St(), d, i);
        }
        i := i + 1;
      }
      EmptiedDir(st1, St(), d, ENTRIES);
      EmptiedGone(st, st1, St(), d);
      P2VInverse(d);
      var _ := Kfree(P2V(d));
      GoneInv(st, St(), d);
    }

    /** setupkvm: a directory with exactly the kernel's mappings if 65 pages are free, else all pages back. */
    method Setupkvm() returns (r: Option<nat>)
      requires Valid()
      modifies this
      ensures Valid() && (r.Some? <==> |old(free)| >= KERNEL_COST)
      ensures r.Some? ==> KernelSpace(old(St()), St(), r.value, data) && KernelFlags(mem, r.value, data)
      ensures r.None? ==> GivenBack(old(St()), St())
    {
      hide Inv, FreeListOk, Taken, NewDirectory, KernelMapped, MappedTo, Mappable, Missing, KernelSpace, Gone, Frame, GivenBack,
           KernelFlags;
      ghost var st := St();
      r := KallocFilled(ZeroPage());
      if r.None? {
        NothingTaken(st);
        return;
      }
      var d := r.value;
      TakenDirectory(st, St(), d);
      Become(WithDir(St(), d));
      ghost var st1 := St();
      DirectoryFacts(st, st1, d);
      KernelNone(st1, d, data);
      var k := 0;
      while k < 4
        invariant 0 <= k <= 4 && Valid() && KernelMapped(st1, St(), d, data, k)
        invariant k == 4 ==> forall i: nat :: i < KERNPAGE / ENTRIES ==> !HasTable(mem, d, i)
      {
        var region := Kmap(data)[k];
        ghost var st2 := St();
        KernelMappable(st1, st2, d, data, k);
        KernelCost(st1, st2, d, data, k);
        var ok, n := Mappages(d, region.virt * PAGE, region.n * PAGE, region.phys * PAGE, region.perm);
        if !ok {
          ghost var st3 := St();
          KernelStuck(st, st1, st2, st3, d, data, k, n);
          Freevm(d);
          MadeAndGone(st, st3, St(), d);
          return None;
        }
        KernelStep(st1, st2, St(), d, data, k);
        if k == 3 {
          KernelTables(st1, st2, St(), d, data);
        }
        k := k + 1;
      }
      KernelDone(st, st1, St(), d, data);
      KernelSpaceHas(st, St(), d, data);
    }

    /** copyuvm: the child maps copies of all the parent's pages, or every page taken is free again. */
    method Copyuvm(d: nat, sz: nat) returns (r: Option<nat>)
      requires Valid() && Own(St(), d) == Dir && sz <= KERNBASE
      requires forall x: nat :: x < Pages(sz) ==> Lookup(mem, d, x).Some?
      modifies this
      ensures Valid() && (r.Some? <==> |old(free)| >= KERNEL_COST + Pages(sz) + TablesTo(Pages(sz)))
      ensures r.Some? ==> Forked(old(St()), St(), d, r.value, data, Pages(sz))
      ensures r.Some? ==> KernelFlags(mem, r.value, data)
      ensures r.Some? ==> forall x: nat :: x < Pages(sz) ==> SameFlags(old(mem), d, mem, r.value, x)
      ensures r.None? ==> GivenBack(old(St()), St())
    {
      hide Inv, FreeListOk, KernelSpace, GivenBack, Grew, CopyAt, Taken, MappedTo, Mappable, Missing, Lookup, Frame, Gone,
           Forked, HasTable, SameFlags, KernelFlags;
      ghost var st, n := St(), Pages(sz);
      r := Setupkvm();
      if r.None? {
        return;
      }
      var e := r.value;
      ghost var st1 := St();
      var i, v := 0, 0;
      SpaceDir(st, st1, e, data);
      GrewNone(st1, e, 0);
      while i < sz
        invariant Valid() && i == v * PAGE && 0 <= v <= n && Copied(st, st1, St(), d, e, v)
        decreases sz - i
      {
        ghost var st2 := St();
        CopyFrame(st, st1, st2, e, data, v);
        CopySource(st, st1, st2, d, e, data, v);
        var t := Walk(d, v, false);
        var w := Get(mem, t.value, v % ENTRIES);
        var page := KallocFilled(Row(mem, PageOf(w)));
        if page.None? {
          CopyStuck(st, st1, st2, e, data, v, n);
          Freevm(e);
          MadeAndGone(st, st2, St(), e);
          return None;
        }
        ghost var st3 := St();
        TakenMappable(st1, st2, st3, e, 0, v, page.value);
        var ok, m := Mappages(e, i, PAGE, page.value * PAGE, w % PAGE);
        if !ok {
          TakenCount(st2, st3, page.value);
          CopyStuck(st, st1, st2, e, data, v, n);
          CopyAbandon(st, st1, st2, e, page.value, data, v);
          return None;
        }
        CopyStep(st, st1, st2, st3, St(), d, e, v, page.value, w);
        v := v + 1;
        i := i + PAGE;
      }
      CopyCost(st, st1, St(), e, data, n);
      CopyDone(st, st1, St(), d, e, data, n);
      ForkedFlags(st, St(), d, e, data, n);
    }

    /** copyuvm's failure with a page in hand. */
    method CopyAbandon(ghost st: State, ghost st1: State, ghost st2: State, e: nat, u: nat, ghost data: nat, ghost v: nat)
      requires Valid() && 0x100 < data < 0xE000 && Inv(st) && KernelSpace(st, st1, e, data) && Grew(st1, st2, e, 0, v)
      requires Taken(st2, St(), u)
      modifies this
      ensures Valid() && GivenBack(st, St())
    {
      hide Inv, FreeListOk, KernelSpace, GivenBack, Grew, Taken, Frame, Gone;
      CopyFrame(st, st1, st2, e, data, v);
      TakenBack(st2, St(), e, u);
      HeldPage(st2, St(), u);
      P2VInverse(u);
      var _ := Kfree(P2V(u));
      ghost var st3 := St();
      FrameTwice(st, st2, st3, e, 0, 0, 0, 0, 0, 0);
      InvFreeList(st3);
      Freevm(e);
      MadeAndGone(st, st3, St(), e);
    }

    /** uva2ka: the page behind v if user code may touch it, which is then the process's own page. It does not test for
        a missing table and then reads its entry through a null pointer: `zero` is the word there. */
    method Uva2ka(d: nat, v: nat, zero: nat) returns (r: Option<nat>)
      requires Valid() && Own(St(), d) == Dir && v < VPAGES
      ensures HasTable(mem, d, v / ENTRIES) ==> (r.Some? <==> UserPage(mem, d, v))
      ensures r.Some? && HasTable(mem, d, v / ENTRIES) && v < KERNPAGE ==>
                r.value == PageOf(Lookup(mem, d, v).value) && Own(St(), r.value) == User(d, v)
      ensures !HasTable(mem, d, v / ENTRIES) ==> r == if Present(zero) && zero / 4 % 2 == 1 then Some(PageOf(zero)) else None
    {
      var w := if HasTable(mem, d, v / ENTRIES) then Get(mem, TableOf(mem, d, v), v % ENTRIES) else zero;
      if !Present(w) || w / 4 % 2 == 0 {
        return None;
      }
      if HasTable(mem, d, v / ENTRIES) && v < KERNPAGE {
        UnmapOwner(St(), d, v);
      }
      r := Some(PageOf(w));
    }

    /** clearpteu: the user bit of v's entry goes, nothing else changes; it panics, having done nothing, exactly when v has no
        table. */
    method Clearpteu(d: nat, v: nat) returns (ok: bool)
      requires Valid() && Own(St(), d) == Dir && v < VPAGES
      modifies this
      ensures Valid() && free == old(free) && owner == old(owner)
      ensures ok <==> old(HasTable(mem, d, v / ENTRIES))
      ensures !ok ==> St() == old(St())
      ensures ok ==>
        LookupUpdated(old(St()), St(), d, v, match old(Lookup(mem, d, v)) case None => None case Some(w) => Some(ClearUser(w)))
      ensures forall p: nat :: !Own(St(), p).Table? ==> Row(mem, p) == Row(old(mem), p)
    {
      ghost var st := St();
      var t := Walk(d, v, false);
      if t.None? {
        return false;
      }
      LeafTable(st, d, v);
      FlagsKeepInv(st, d, v, ClearUser(Get(mem, t.value, v % ENTRIES)));
      mem := Put(mem, t.value, v % ENTRIES, ClearUser(Get(mem, t.value, v % ENTRIES)));
      ok := true;
    }
  }

  lemma WholePages(vstart: nat, vend: nat, q: nat)
    requires vstart >= KERNBASE && vend >= KERNBASE
    ensures Between(q, vstart, vend) <==> PageUp(vstart) <= q < PageDown(vend)
  {
  }

  lemma DirectoryFlags(st: State, d: nat, i: nat)
    requires Inv(st) && Own(st, d) == Dir && i < ENTRIES && HasTable(st.mem, d, i)
    ensures Get(st.mem, d, i) == PageOf(Get(st.mem, d, i)) * PAGE + 7
  {
    assert OwnerOk(st, d) && EntryOk(st, d, i);
  }

  /** All of page p lies between two kernel addresses. */
  predicate Between(p: nat, vstart: nat, vend: nat) {
    vstart <= P2V(p) && P2V(p + 1) <= vend
  }

  /** The entry without its user bit. */
  function ClearUser(w: nat): (r: nat)
    ensures Present(r) == Present(w) && PageOf(r) == PageOf(w) && r / 4 % 2 == 0 && r % 4 == w % 4 && r / 8 == w / 8
  {
    var high, low := w / 8, w % 8 % 4;
    LowBits(high, w % 8);
    LowBits(high, low);
    8 * high + low
  }

  lemma LowBits(high: nat, low: nat)
    requires low < 8
    ensures var w := 8 * high + low;
      w / 8 == high && w % 4 == low % 4 && w % 2 == low % 2 && w / 4 % 2 == low / 4 && w / PAGE == high / 512
  {
    var w := 8 * high + low;
    assert w / 4 == 2 * high + low / 4;
    var q, r := high / 512, high % 512;
    assert w == q * PAGE + (8 * r + low);
  }

  lemma FlagsKeepInv(st: State, d: nat, v: nat, w: nat)
    requires Inv(st) && Own(st, d) == Dir && v < VPAGES && HasTable(st.mem, d, v / ENTRIES) && TableOf(st.mem, d, v) < |st.mem|
    requires var w0 := Get(st.mem, TableOf(st.mem, d, v), v % ENTRIES); Present(w) == Present(w0) && PageOf(w) == PageOf(w0)
    ensures var st' := st.(mem := Put(st.mem, TableOf(st.mem, d, v), v % ENTRIES, w));
      Inv(st') && LookupUpdated(st, st', d, v, if Present(w) then Some(w) else None)
  {
    LeafTable(st, d, v);
    var t := TableOf(st.mem, d, v);
    var st' := st.(mem := Put(st.mem, t, v % ENTRIES, w));
    PutUpdatesLookup(st, d, v, w, st');
    forall k | 0 <= k < |st'.free| ensures FreeOk(st', k) {
      assert FreeOk(st, k);
    }
    forall q | q in st'.owner ensures OwnerOk(st', q) {
      assert OwnerOk(st, q);
      match Own(st, q)
      case Dir =>
        forall i | 0 <= i < ENTRIES ensures EntryOk(st', q, i) {
          assert EntryOk(st, q, i);
        }
      case Table(e, i) =>
        if i < KERNPAGE / ENTRIES {
          forall j | 0 <= j < ENTRIES ensures LeafOk(st', q, e, i, j) {
            assert LeafOk(st, q, e, i, j);
          }
        }
      case _ =>
    }
  }

  lemma SpaceDir(st: State, st1: State, e: nat, data: nat)
    requires 0x100 < data < 0xE000 && KernelSpace(st, st1, e, data)
    ensures Inv(st1) && Own(st1, e) == Dir
  {
  }

  lemma HeldPage(st: State, st1: State, u: nat)
    requires Taken(st, st1, u)
    ensures Own(st1, u) == Held && u in st1.owner
  {
  }

  lemma TakenInv(st: State, st': State, u: nat)
    requires Taken(st, st', u)
    ensures Inv(st') && FreeListOk(st') && st'.owner.Keys == st.owner.Keys && |st'.mem| == |st.mem|
  {
  }

  lemma TakenCount(st: State, st': State, u: nat)
    requires Taken(st, st', u)
    ensures |st'.free| == |st.free| - 1
  {
  }

  lemma GrownDir(st: State, st1: State, st2: State, d: nat, lo: nat, v: nat, u: nat)
    requires Grew(st, st1, d, lo, v) && Taken(st1, st2, u)
    ensures Own(st1, d) == Dir && Own(st2, d) == Dir && u in st2.owner
  {
    assert SamePage(st1, st2, d);
  }

  lemma GrownDir1(st: State, st1: State, d: nat, lo: nat, v: nat)
    requires Grew(st, st1, d, lo, v)
    ensures Own(st1, d) == Dir
  {
  }

  lemma GrownCount(st: State, st1: State, d: nat, lo: nat, hi: nat)
    requires Grew(st, st1, d, lo, hi)
    ensures |st.free| >= hi - lo + Missing(st.mem, d, lo, hi)
  {
  }

  lemma GrowZero(st: State, st1: State, st2: State, st3: State, d: nat, lo: nat, v: nat, u: nat)
    requires lo <= v < KERNPAGE && Inv(st1) && GrownBy(st, st1, d, lo, v) && Row(st2.mem, u) == ZeroPage()
    requires Taken(st1, st2, u) && MappedTo(st2, st3, d, v, u, 1, 6)
    ensures forall x: nat :: lo <= x < v + 1 ==> PageAt(st, st3, d, x, ZeroPage(), 6)
  {
    hide Inv, Grew, Taken, MappedTo, PageAt;
    GrowNew(st, st1, st2, st3, d, lo, v, u, 6);
    forall x: nat | lo <= x < v ensures PageAt(st, st3, d, x, ZeroPage(), 6) {
      GrowOld(st, st1, st2, st3, d, lo, v, u, 6, x, ZeroPage(), 6);
    }
  }

  /** PGROUNDUP in pages. */
  function Pages(sz: nat): nat {
    (sz + PAGE - 1) / PAGE
  }

  /** As many pages as hold sz bytes, and no more. */
  lemma PagesSuffice(sz: nat)
    ensures sz <= Pages(sz) * PAGE < sz + PAGE
  {
  }

  /** Freeing the page and clearing its entry touch different pages, so their order does not matter. */
  lemma ReleaseMem(st: State, d: nat, v: nat, head: nat)
    requires Inv(st) && Own(st, d) == Dir && v < KERNPAGE && Lookup(st.mem, d, v).Some? && head == Link(st.free, |st.free|)
    ensures var t, u := TableOf(st.mem, d, v), PageOf(Lookup(st.mem, d, v).value);
      && t < |st.mem| && u < |st.mem| && u != t && |st.mem[t]| == ENTRIES && u in st.owner && Own(st, u) == User(d, v)
      && Released(st, d, v).mem == Put(st.mem[u := Junk(head)], t, v % ENTRIES, 0)
      && Released(st, d, v).free == st.free + [u]
  {
    UnmapOwner(st, d, v);
    LeafTable(st, d, v);
  }

  lemma ClearedInv(st: State, st': State, d: nat, lo: nat, hi: nat)
    requires Cleared(st, st', d, lo, hi)
    ensures Inv(st') && FreeListOk(st') && st'.owner.Keys == st.owner.Keys && |st'.mem| == |st.mem| && Own(st', d) == Dir
  {
  }

  lemma MappedDir(st: State, st': State, d: nat, a: nat, q: nat, n: nat, perm: nat)
    requires MappedTo(st, st', d, a, q, n, perm)
    ensures Own(st', d) == Dir
  {
  }

  lemma MappedCount(st: State, st': State, d: nat, a: nat, q: nat, n: nat, perm: nat)
    requires MappedTo(st, st', d, a, q, n, perm)
    ensures |st.free| >= Missing(st.mem, d, a, a + n)
  {
  }

  lemma MappableLess(st: State, d: nat, a: nat, q: nat, n: nat, total: nat)
    requires Mappable(st, d, a, q, total) && n <= total
    ensures Mappable(st, d, a, q, n)
  {
  }

  lemma TableRow(st: State, d: nat, v: nat, w: nat)
    requires Inv(st) && CanMap(st, d, v, w)
    ensures TableOf(st.mem, d, v) < |st.mem| && |st.mem[TableOf(st.mem, d, v)]| == ENTRIES
    ensures !Present(Get(st.mem, TableOf(st.mem, d, v), v % ENTRIES))
  {
    LeafTable(st, d, v);
  }

  lemma LeafAddedInv(st: State, st': State, d: nat, v: nat, w: nat)
    requires LeafAdded(st, st', d, v, w)
    ensures Inv(st') && FreeListOk(st') && st'.owner.Keys == st.owner.Keys && |st'.mem| == |st.mem|
  {
  }

  lemma TablePage(st: State, d: nat, i: nat)
    requires Inv(st) && Own(st, d) == Dir && |st.free| > 0 && i < ENTRIES
    ensures var t := st.free[|st.free| - 1]; t < |st.mem| && d < |st.mem| && t != d && |st.mem[d]| == ENTRIES
    ensures var t := st.free[|st.free| - 1];
            NewTable(st, d, i) == State(Put(st.mem[t := ZeroPage()], d, i, t * PAGE + 7), st.free[..|st.free| - 1],
                                        st.owner[t := Held][t := Table(d, i)])
  {
    assert FreeOk(st, |st.free| - 1);
  }

  lemma TableAddedInv(st: State, st': State, d: nat, i: nat)
    requires TableAdded(st, st', d, i)
    ensures Inv(st') && FreeListOk(st') && st'.owner.Keys == st.owner.Keys && |st'.mem| == |st.mem|
  {
  }

  lemma ClearedAll(st: State, st1: State, d: nat)
    requires Cleared(st, st1, d, 0, KERNPAGE)
    ensures Inv(st1) && Own(st1, d) == Dir && forall v: nat :: v < KERNPAGE ==> Lookup(st1.mem, d, v) == None
  {
  }

  lemma SameGet(mem: seq<seq<nat>>, mem': seq<seq<nat>>, d: nat, i: nat)
    requires Row(mem, d) == Row(mem', d)
    ensures Get(mem, d, i) == Get(mem', d, i) && (HasTable(mem, d, i) <==> Present(Get(mem', d, i)))
  {
  }

  lemma InvFreeList(st: State)
    requires Inv(st)
    ensures FreeListOk(st)
  {
  }

  lemma GoneInv(st: State, st': State, d: nat)
    requires Gone(st, st', d)
    ensures Inv(st') && FreeListOk(st')
  {
  }

  lemma NothingTaken(st: State)
    requires Inv(st)
    ensures GivenBack(st, st)
  {
  }

  lemma DirectoryFacts(st: State, st1: State, d: nat)
    requires NewDirectory(st, st1, d)
    ensures Inv(st1) && FreeListOk(st1) && Own(st1, d) == Dir && Own(st, d).Free? && |st1.free| == |st.free| - 1
    ensures forall x: nat :: x < VPAGES ==> Lookup(st1.mem, d, x) == None
    ensures forall i: nat :: !HasTable(st1.mem, d, i)
  {
  }

  /** Out of pages in region k, setupkvm did not have the 65 pages it needs; nobody else's page has moved. */
  lemma KernelStuck(st: State, st1: State, st2: State, st3: State, d: nat, data: nat, k: nat, n: nat)
    requires 0x100 < data < 0xE000 && k < 4 && NewDirectory(st, st1, d) && KernelMapped(st1, st2, d, data, k)
    requires var r := Kmap(data)[k];
      |st2.free| < Missing(st2.mem, d, r.virt, r.virt + r.n) && MappedTo(st2, st3, d, r.virt, r.phys, n, r.perm)
    ensures |st.free| < KERNEL_COST && Own(st3, d) == Dir && Frame(st, st3, d, 0, 0)
  {
    hide Inv, Lookup, Grows, Missing, Frame, HasTable;
    DirectoryFacts(st, st1, d);
    KernelCost(st1, st2, d, data, k);
    var r := Kmap(data)[k];
    GrowsTwice(st1, st2, st3, d, 0, 0, r.phys, r.phys, 0, 0);
    DirectoryFrame(st, st1, st3, d);
    MappedDir(st2, st3, d, r.virt, r.phys, n, r.perm);
  }

  lemma KernelDone(st: State, st1: State, st2: State, d: nat, data: nat)
    requires 0x100 < data < 0xE000 && NewDirectory(st, st1, d) && KernelMapped(st1, st2, d, data, 4)
    requires forall i: nat :: i < KERNPAGE / ENTRIES ==> !HasTable(st2.mem, d, i)
    ensures KernelSpace(st, st2, d, data) && |st.free| >= KERNEL_COST
  {
    hide Lookup, Frame, HasTable;
    DirectoryFacts(st, st1, d);
    DirectoryFrame(st, st1, st2, d);
  }
}
