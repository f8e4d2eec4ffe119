/** User memory as bytes, and copyout (vm.c), which writes it through a page table that is not the current one. */
module UserSpace {
  import opened Blocks
  import opened PageTables
  import opened Mappings
  import opened VirtualMemory

  // ---- bytes of a page ----

  function ByteOf(w: nat, k: nat): byte
    requires k < 4
  {
    if k == 0 then w % 0x100
    else if k == 1 then w / 0x100 % 0x100
    else if k == 2 then w / 0x1_0000 % 0x100
    else w / 0x100_0000 % 0x100
  }

  function PageBytes(page: seq<nat>): (bs: seq<byte>)
    requires |page| == ENTRIES
    ensures |bs| == PAGE
  {
    seq(PAGE, a requires 0 <= a < PAGE => ByteOf(page[a / 4], a % 4))
  }

  function PageWord(bs: seq<byte>, j: nat): uint32
    requires |bs| == PAGE && j < ENTRIES
  {
    var b0: int, b1: int, b2: int, b3: int := bs[4 * j], bs[4 * j + 1], bs[4 * j + 2], bs[4 * j + 3];
    b0 + 0x100 * b1 + 0x1_0000 * b2 + 0x100_0000 * b3
  }

  function PageWords(bs: seq<byte>): (page: seq<nat>)
    requires |bs| == PAGE
    ensures |page| == ENTRIES
  {
    seq(ENTRIES, j requires 0 <= j < ENTRIES => PageWord(bs, j))
  }

  lemma BytesOfWords(bs: seq<byte>)
    requires |bs| == PAGE
    ensures PageBytes(PageWords(bs)) == bs
  {
    forall a | 0 <= a < PAGE ensures PageBytes(PageWords(bs))[a] == bs[a] {
      var j := a / 4;
      WordBytes(bs[4 * j], bs[4 * j + 1], bs[4 * j + 2], bs[4 * j + 3]);
    }
  }

  lemma WordBytes(b0: byte, b1: byte, b2: byte, b3: byte)
    ensures var w: int := b0 as int + 0x100 * b1 + 0x1_0000 * b2 + 0x100_0000 * b3;
            ByteOf(w, 0) == b0 && ByteOf(w, 1) == b1 && ByteOf(w, 2) == b2 && ByteOf(w, 3) == b3
  {
    var x, y := b2 + 0x100 * b3, b1 + 0x100 * (b2 + 0x100 * b3);
    var w := b0 + 0x100 * y;
    assert w / 0x100 == y && w % 0x100 == b0;
    assert y / 0x100 == x && y % 0x100 == b1;
    assert w / 0x1_0000 == x && w / 0x100_0000 == b3;
  }

  /** Bytes with s laid over them from `at` on. */
  function Stored(mem: seq<byte>, at: nat, s: seq<byte>): (r: seq<byte>)
    requires at + |s| <= |mem|
    ensures |r| == |mem|
  {
    mem[..at] + s + mem[at + |s|..]
  }

  lemma StoredNone(mem: seq<byte>, at: nat)
    requires at <= |mem|
    ensures Stored(mem, at, []) == mem
  {
  }

  lemma StoredOutside(mem: seq<byte>, at: nat, s: seq<byte>)
    requires at + |s| <= |mem|
    ensures forall a :: 0 <= a < |mem| && !(at <= a < at + |s|) ==> Stored(mem, at, s)[a] == mem[a]
  {
  }

  lemma StoredMore(mem: seq<byte>, at: nat, s: seq<byte>, k: nat, n: nat)
    requires at + |s| <= |mem| && k + n <= |s|
    ensures Stored(Stored(mem, at, s[..k]), at + k, s[k..k + n]) == Stored(mem, at, s[..k + n])
  {
    assert s[..k + n] == s[..k] + s[k..k + n];
  }

  // ---- bytes of an address space ----

  /** What user code of directory d reads at address a. */
  function UserByte(mem: seq<seq<nat>>, d: nat, a: nat): byte {
    match Lookup(mem, d, a / PAGE)
    case None => 0
    case Some(w) => ByteOf(Get(mem, PageOf(w), a % PAGE / 4), a % 4)
  }

  /** A word of memory is its four bytes, the lowest first. */
  lemma UserWord(mem: seq<seq<nat>>, d: nat, a: nat)
    requires a % 4 == 0 && Lookup(mem, d, a / PAGE).Some?
    requires Get(mem, PageOf(Lookup(mem, d, a / PAGE).value), a % PAGE / 4) < 0x1_0000_0000
    ensures Get(mem, PageOf(Lookup(mem, d, a / PAGE).value), a % PAGE / 4) ==
            UserByte(mem, d, a) as int + 0x100 * UserByte(mem, d, a + 1) + 0x1_0000 * UserByte(mem, d, a + 2)
            + 0x100_0000 * UserByte(mem, d, a + 3)
  {
    hide Lookup, Get;
    InWord(a, 1);
    InWord(a, 2);
    InWord(a, 3);
    SplitWord(Get(mem, PageOf(Lookup(mem, d, a / PAGE).value), a % PAGE / 4));
  }

  lemma InWord(a: nat, k: nat)
    requires a % 4 == 0 && k < 4
    ensures (a + k) / PAGE == a / PAGE && (a + k) % PAGE / 4 == a % PAGE / 4 && (a + k) % 4 == k
  {
    assert a == a / PAGE * PAGE + a % PAGE && a % PAGE % 4 == 0;
    WithinPage(a, a + k);
  }

  /** The first n pages of directory d, as bytes and as user bits. */
  ghost function Bytes(mem: seq<seq<nat>>, d: nat, n: nat): (bs: seq<byte>)
    ensures |bs| == n * PAGE && forall a :: 0 <= a < n * PAGE ==> bs[a] == UserByte(mem, d, a)
  {
    seq(n * PAGE, a requires 0 <= a < n * PAGE => UserByte(mem, d, a))
  }

  ghost function UserBits(mem: seq<seq<nat>>, d: nat, n: nat): (us: seq<bool>)
    ensures |us| == n && forall v :: 0 <= v < n ==> us[v] == UserPage(mem, d, v)
  {
    seq(n, v requires 0 <= v < n => UserPage(mem, d, v))
  }

  /** Every page that n bytes at va touch may be touched by user code. */
  ghost predicate Reachable(user: seq<bool>, va: nat, n: nat)
    requires va + n <= |user| * PAGE
  {
    forall a :: va <= a < va + n ==> user[a / PAGE]
  }

  /** The bytes up to the end of a user page are reachable. */
  lemma ReachMore(user: seq<bool>, va: nat, k: nat, n: nat)
    requires va + k + n <= |user| * PAGE && Reachable(user, va, k)
    requires n > 0 && n <= PAGE - (va + k) % PAGE && user[(va + k) / PAGE]
    ensures Reachable(user, va, k + n)
  {
    forall x | va <= x < va + k + n ensures user[x / PAGE] {
      if x >= va + k {
        WithinPage(va + k, x);
      }
    }
  }

  lemma WithinPage(a: nat, x: nat)
    requires a <= x < a + PAGE - a % PAGE
    ensures x / PAGE == a / PAGE && x % PAGE == a % PAGE + (x - a)
  {
    assert a == a / PAGE * PAGE + a % PAGE;
  }

  /** Memory after s is written into page p from byte `at` on. */
  function PageStored(mem: seq<seq<nat>>, p: nat, at: nat, s: seq<byte>): (r: seq<seq<nat>>)
    requires p < |mem| && |mem[p]| == ENTRIES && at + |s| <= PAGE
    ensures |r| == |mem|
  {
    mem[p := PageWords(Stored(PageBytes(mem[p]), at, s))]
  }

  lemma ByteStored(page: seq<nat>, at: nat, s: seq<byte>, o: nat)
    requires |page| == ENTRIES && at + |s| <= PAGE && o < PAGE
    ensures ByteOf(PageWords(Stored(PageBytes(page), at, s))[o / 4], o % 4)
            == if at <= o < at + |s| then s[o - at] else ByteOf(page[o / 4], o % 4)
  {
    hide PageWords, ByteOf;
    var bs := Stored(PageBytes(page), at, s);
    BytesOfWords(bs);
    assert PageBytes(PageWords(bs))[o] == bs[o];
  }

  lemma AddressParts(a: nat, v: nat, at: nat, n: nat)
    requires at + n <= PAGE
    ensures a % PAGE % 4 == a % 4 && (a < KERNBASE ==> a / PAGE < KERNPAGE)
    ensures v * PAGE + at <= a < v * PAGE + at + n <==> a / PAGE == v && at <= a % PAGE < at + n
    ensures a / PAGE == v ==> a - v * PAGE - at == a % PAGE - at
  {
    var x, o := a / PAGE, a % PAGE;
    assert a == x * PAGE + o;
    if x < v {
      assert x * PAGE + PAGE <= v * PAGE;
    } else if x > v {
      assert v * PAGE + PAGE <= x * PAGE;
    }
  }

  /** Writing the page of (d, v) changes those bytes of d, and no byte of any other address space. */
  lemma UserByteStored(st: State, d: nat, v: nat, at: nat, s: seq<byte>, e: nat, a: nat)
    requires Inv(st) && Own(st, d) == Dir && v < KERNPAGE && Lookup(st.mem, d, v).Some? && at + |s| <= PAGE
    requires Own(st, e) == Dir && a < KERNBASE
    requires var p := PageOf(Lookup(st.mem, d, v).value); p < |st.mem| && SameLookups(st, st.(mem := PageStored(st.mem, p, at, s)))
    ensures var p := PageOf(Lookup(st.mem, d, v).value);
            UserByte(PageStored(st.mem, p, at, s), e, a) ==
            if e == d && v * PAGE + at <= a < v * PAGE + at + |s| then s[a - v * PAGE - at] else UserByte(st.mem, e, a)
  {
    hide PageWords, ByteOf, PageBytes, Stored, Inv, Lookup, PageOf;
    InvShape(st);
    AddressParts(a, v, at, |s|);
    var p, x, o := PageOf(Lookup(st.mem, d, v).value), a / PAGE, a % PAGE;
    UnmapOwner(st, d, v);
    if Lookup(st.mem, e, x).Some? {
      UnmapOwner(st, e, x);
      if PageOf(Lookup(st.mem, e, x).value) == p {
        ByteStored(st.mem[p], at, s, o);
      }
    }
  }

  lemma InvShape(st: State)
    requires Inv(st)
    ensures Shape(st) && FreeListOk(st)
  {
  }

  /** The user memory of one address space, from address 0 up to its size. */
  class UserMemory {
    const vm: Machine
    const d: nat
    const pages: nat

    ghost predicate Valid()
      reads vm
    {
      && vm.Valid() && Own(vm.St(), d) == Dir && pages <= KERNPAGE
      && forall v: nat :: v < pages ==> Lookup(vm.mem, d, v).Some?
    }

    ghost function Mem(): (bs: seq<byte>)
      reads vm
      ensures |bs| == pages * PAGE
    {
      Bytes(vm.mem, d, pages)
    }

    ghost function User(): (us: seq<bool>)
      reads vm
      ensures |us| == pages
    {
      UserBits(vm.mem, d, pages)
    }

    constructor (vm: Machine, d: nat, pages: nat)
      requires vm.Valid() && Own(vm.St(), d) == Dir && pages <= KERNPAGE
      requires forall v: nat :: v < pages ==> Lookup(vm.mem, d, v).Some?
      ensures Valid() && this.vm == vm && this.d == d && this.pages == pages
    {
      this.vm, this.d, this.pages := vm, d, pages;
    }

    /** The memmove of copyout, into one page. */
    method StorePage(v: nat, at: nat, s: seq<byte>)
      requires Valid() && v < pages && at + |s| <= PAGE
      modifies vm
      ensures Valid() && OnlyBytes(old(vm.St()), vm.St(), d)
      ensures v * PAGE + at + |s| <= pages * PAGE && Mem() == Stored(old(Mem()), v * PAGE + at, s) && User() == old(User())
    {
      hide Inv, PageWords, PageBytes, PageStored, UserByte;
      ghost var st := vm.St();
      UnmapOwner(st, d, v);
      InvShape(st);
      var p := PageOf(Lookup(vm.mem, d, v).value);
      PageStoredKeeps(st, d, v, at, s);
      vm.mem := PageStored(vm.mem, p, at, s);
      assert vm.St() == st.(mem := vm.mem);
      InvShape(vm.St());
      BytesStored(st, d, v, at, s, pages);
      SameBits(st, vm.St(), d, pages);
    }

    /** copyout: page by page, as far as user pages go. */
    method Copyout(va: nat, buf: seq<byte>) returns (ok: bool)
      requires Valid() && va + |buf| <= pages * PAGE
      modifies vm
      ensures Valid() && OnlyBytes(old(vm.St()), vm.St(), d) && User() == old(User())
      ensures ok <==> Reachable(User(), va, |buf|)
      ensures ok ==> Mem() == Stored(old(Mem()), va, buf)
      ensures forall a :: 0 <= a < pages * PAGE && !(va <= a < va + |buf|) ==> Mem()[a] == old(Mem())[a]
    {
      hide Stored, OnlyBytes, Machine.Valid, Lookup, UserByte, Reachable, UserMemory.Mem, UserMemory.User;
      ghost var st, mem, user := vm.St(), Mem(), User();
      OnlyBytesRefl(st, d);
      var a, k, len := va, 0, |buf|;
      StoredNone(mem, va);
      assert buf[..0] == [];
      ReachNone(user, va);
      while len > 0
        invariant Valid() && 0 <= k && 0 <= len && k + len == |buf| && OnlyBytes(st, vm.St(), d) && User() == user
        invariant len > 0 ==> a == va + k
        invariant Mem() == Stored(mem, va, buf[..k]) && Reachable(user, va, k)
        decreases len
      {
        var v, o := a / PAGE, a % PAGE;
        assert a == v * PAGE + o && v < pages;
        MappedTable(vm.mem, d, v);
        BitAt(this, v);
        var pa := vm.Uva2ka(d, v, 0);
        if pa.None? {
          StoredOutside(mem, va, buf[..k]);
          Unreachable(user, va, |buf|, a);
          return false;
        }
        var n := if PAGE - o > len then len else PAGE - o;
        ReachMore(user, va, k, n);
        StoredMore(mem, va, buf, k, n);
        ghost var st1 := vm.St();
        StorePage(v, o, buf[k..k + n]);
        OnlyBytesTrans(st, st1, vm.St(), d);
        len := len - n;
        k := k + n;
        a := v * PAGE + PAGE;
      }
      assert buf[..k] == buf;
      StoredOutside(mem, va, buf);
      ok := true;
    }
  }

  /** Between the states nothing moved and no byte of another address space changed. */
  ghost predicate OnlyBytes(st: State, st': State, d: nat) {
    && st'.free == st.free && st'.owner == st.owner && SameLookups(st, st')
    && forall e: nat, a: nat :: Own(st, e) == Dir && e != d && a < KERNBASE ==> UserByte(st'.mem, e, a) == UserByte(st.mem, e, a)
  }

  lemma OnlyBytesRefl(st: State, d: nat)
    ensures OnlyBytes(st, st, d)
  {
  }

  lemma OnlyBytesTrans(st: State, st1: State, st2: State, d: nat)
    requires OnlyBytes(st, st1, d) && OnlyBytes(st1, st2, d)
    ensures OnlyBytes(st, st2, d)
  {
    hide UserByte, Lookup;
  }

  lemma PageStoredKeeps(st: State, d: nat, v: nat, at: nat, s: seq<byte>)
    requires Inv(st) && Own(st, d) == Dir && v < KERNPAGE && Lookup(st.mem, d, v).Some? && at + |s| <= PAGE
    ensures var p := PageOf(Lookup(st.mem, d, v).value);
            && p < |st.mem| && |st.mem[p]| == ENTRIES && Own(st, p) == User(d, v)
            && (var st' := st.(mem := PageStored(st.mem, p, at, s)); Inv(st') && OnlyBytes(st, st', d))
  {
    hide PageWords, PageBytes, UserByte;
    UnmapOwner(st, d, v);
    var p := PageOf(Lookup(st.mem, d, v).value);
    WriteContents(st, p, PageWords(Stored(PageBytes(st.mem[p]), at, s)));
    hide Inv;
    forall e: nat, a: nat | Own(st, e) == Dir && e != d && a < KERNBASE
      ensures UserByte(PageStored(st.mem, p, at, s), e, a) == UserByte(st.mem, e, a)
    {
      UserByteStored(st, d, v, at, s, e, a);
    }
  }

  lemma BytesStored(st: State, d: nat, v: nat, at: nat, s: seq<byte>, n: nat)
    requires Inv(st) && Own(st, d) == Dir && v < n <= KERNPAGE && Lookup(st.mem, d, v).Some? && at + |s| <= PAGE
    requires var p := PageOf(Lookup(st.mem, d, v).value);
             p < |st.mem| && |st.mem[p]| == ENTRIES && SameLookups(st, st.(mem := PageStored(st.mem, p, at, s)))
    ensures v * PAGE + at + |s| <= n * PAGE
    ensures Bytes(PageStored(st.mem, PageOf(Lookup(st.mem, d, v).value), at, s), d, n) == Stored(Bytes(st.mem, d, n), v * PAGE + at, s)
  {
    hide PageStored, UserByte, Inv;
    assert v * PAGE + PAGE <= n * PAGE;
    forall a: nat | a < n * PAGE
      ensures UserByte(PageStored(st.mem, PageOf(Lookup(st.mem, d, v).value), at, s), d, a)
              == Stored(Bytes(st.mem, d, n), v * PAGE + at, s)[a]
    {
      UserByteStored(st, d, v, at, s, d, a);
    }
  }

  lemma SameBits(st: State, st': State, d: nat, n: nat)
    requires SameLookups(st, st') && Own(st, d) == Dir && n <= KERNPAGE
    ensures UserBits(st'.mem, d, n) == UserBits(st.mem, d, n)
    ensures forall v: nat :: v < n ==> Lookup(st'.mem, d, v) == Lookup(st.mem, d, v)
  {
    hide Lookup;
  }

  lemma MappedTable(mem: seq<seq<nat>>, d: nat, v: nat)
    requires Lookup(mem, d, v).Some?
    ensures HasTable(mem, d, v / ENTRIES)
  {
  }

  lemma BitAt(m: UserMemory, v: nat)
    requires v < m.pages
    ensures m.User()[v] <==> UserPage(m.vm.mem, m.d, v)
  {
  }

  lemma ReachNone(user: seq<bool>, va: nat)
    requires va <= |user| * PAGE
    ensures Reachable(user, va, 0)
  {
  }

  lemma Unreachable(user: seq<bool>, va: nat, n: nat, a: nat)
    requires va <= a < va + n <= |user| * PAGE && !user[a / PAGE]
    ensures !Reachable(user, va, n)
  {
  }
}
