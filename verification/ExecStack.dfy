/** The user stack that exec and exec2 build for a new program (exec.c, PRJ02_syscall.c), written through copyout
    (vm.c) into memory whose guard page has lost its user bit. */
module ExecStack {
  import opened Blocks
  import opened PageTables
  import opened Mappings
  import opened VirtualMemory
  import opened UserSpace

  const MAXARG := 32

  // ---- where things go ----

  function Down4(a: int): int {
    a / 4 * 4
  }

  /** The stack pointer once the first k argument strings are pushed. */
  function Sp(sz: nat, args: seq<seq<byte>>, k: nat): int
    requires k <= |args|
  {
    if k == 0 then sz else Down4(Sp(sz, args, k - 1) - (|args[k - 1]| + 1))
  }

  /** The address of argument string k. */
  function Slot(sz: nat, args: seq<seq<byte>>, k: nat): int
    requires k < |args|
  {
    Sp(sz, args, k + 1)
  }

  /** and once the words above them are. */
  function FinalSp(sz: nat, args: seq<seq<byte>>): int {
    Sp(sz, args, |args|) - 4 * (|args| + 4)
  }

  /** Strings lie below one another, at word addresses. */
  lemma {:induction false} SpDown(sz: nat, args: seq<seq<byte>>, k: nat)
    requires k <= |args| && sz % 4 == 0
    ensures Sp(sz, args, k) % 4 == 0
    ensures k < |args| ==> Sp(sz, args, k + 1) + |args[k]| + 1 <= Sp(sz, args, k) < Sp(sz, args, k + 1) + |args[k]| + 5
  {
    if k > 0 {
      SpDown(sz, args, k - 1);
    }
  }

  lemma {:induction false} SpBelow(sz: nat, args: seq<seq<byte>>, j: nat, k: nat)
    requires j <= k <= |args| && sz % 4 == 0
    ensures Sp(sz, args, k) <= Sp(sz, args, j)
    decreases k - j
  {
    if j < k {
      SpBelow(sz, args, j, k - 1);
      SpDown(sz, args, k - 1);
    }
  }

  /** The strings are whole, at word addresses and apart from one another, and the words from sp on lie below them
      all. Nothing is wasted but the bytes up to a word boundary. */
  ghost predicate LaidOut(sz: nat, args: seq<seq<byte>>, sp: int) {
    && sp + 4 * (|args| + 4) == (if args == [] then sz else Slot(sz, args, |args| - 1))
    && (forall k :: 0 <= k < |args| ==> (if k == 0 then sz else Slot(sz, args, k - 1)) <= Slot(sz, args, k) + |args[k]| + 4)
    && (forall k :: 0 <= k < |args| ==> Slot(sz, args, k) % 4 == 0)
    && (forall k :: 0 <= k < |args| ==> sp + 4 * (|args| + 4) <= Slot(sz, args, k) < Slot(sz, args, k) + |args[k]| + 1 <= sz)
    && (forall j, k :: 0 <= j < k < |args| ==> Slot(sz, args, k) + |args[k]| + 1 <= Slot(sz, args, j))
  }

  lemma StackLaidOut(sz: nat, args: seq<seq<byte>>)
    requires sz % 4 == 0
    ensures LaidOut(sz, args, FinalSp(sz, args))
  {
    hide Sp;
    SpStart([], sz, args);
    forall k | 0 <= k < |args|
      ensures Slot(sz, args, k) % 4 == 0 && Sp(sz, args, |args|) <= Slot(sz, args, k)
      ensures Slot(sz, args, k) + |args[k]| + 1 <= Sp(sz, args, k) <= sz
      ensures Sp(sz, args, k) <= Slot(sz, args, k) + |args[k]| + 4
    {
      SpDown(sz, args, k);
      SpDown(sz, args, k + 1);
      SpBelow(sz, args, k + 1, |args|);
      SpBelow(sz, args, 0, k);
    }
    forall j, k | 0 <= j < k < |args| ensures Slot(sz, args, k) + |args[k]| + 1 <= Slot(sz, args, j) {
      SpDown(sz, args, k);
      SpBelow(sz, args, j + 1, k);
    }
  }

  function Le(w: uint32): (r: seq<byte>)
    ensures |r| == 4
  {
    [w % 0x100, w / 0x100 % 0x100, w / 0x1_0000 % 0x100, w / 0x100_0000]
  }

  function LeAll(ws: seq<uint32>): (r: seq<byte>)
    ensures |r| == 4 * |ws|
  {
    if ws == [] then [] else LeAll(ws[..|ws| - 1]) + Le(ws[|ws| - 1])
  }

  /** The word a program reads at address a. */
  function WordAt(mem: seq<byte>, a: nat): uint32
    requires a + 4 <= |mem|
  {
    var b0: int, b1: int, b2: int, b3: int := mem[a], mem[a + 1], mem[a + 2], mem[a + 3];
    b0 + 0x100 * b1 + 0x1_0000 * b2 + 0x100_0000 * b3
  }

  lemma {:induction false} WordOfAll(ws: seq<uint32>, i: nat)
    requires i < |ws|
    ensures WordAt(LeAll(ws), 4 * i) == ws[i]
  {
    var n := |ws| - 1;
    if i == n {
      SplitWord(ws[n]);
    } else {
      WordOfAll(ws[..n], i);
    }
  }

  // ---- what the new program finds ----

  /** A string and its terminator at address a. */
  ghost predicate StringAt(mem: seq<byte>, a: int, s: seq<byte>) {
    0 <= a && a + |s| + 1 <= |mem| && mem[a..a + |s|] == s && mem[a + |s|] == 0
  }

  /** Fake return address, argc, argv, then argv's slots: each argument's own string, and a null. */
  ghost predicate WordsAt(mem: seq<byte>, sp: nat, sz: nat, args: seq<seq<byte>>) {
    && sp + 4 * (|args| + 4) <= |mem|
    && WordAt(mem, sp) == 0xFFFF_FFFF && WordAt(mem, sp + 4) == |args| && WordAt(mem, sp + 8) == sp + 12
    && (forall k :: 0 <= k < |args| ==> WordAt(mem, sp + 12 + 4 * k) == Slot(sz, args, k))
    && WordAt(mem, sp + 12 + 4 * |args|) == 0
  }

  /** The first n arguments are in place. */
  ghost predicate StringsAt(mem: seq<byte>, sz: nat, args: seq<seq<byte>>, n: nat)
    requires n <= |args|
  {
    forall k :: 0 <= k < n ==> StringAt(mem, Slot(sz, args, k), args[k])
  }

  lemma StringKept(mem: seq<byte>, at: nat, s: seq<byte>, a: int, t: seq<byte>)
    requires at + |s| <= |mem| && StringAt(mem, a, t) && at + |s| <= a
    ensures StringAt(Stored(mem, at, s), a, t)
  {
    assert Stored(mem, at, s)[a..a + |t|] == mem[a..a + |t|];
  }

  /** Writing strictly below the strings leaves them alone. */
  lemma StringsKept(mem: seq<byte>, at: nat, s: seq<byte>, sz: nat, args: seq<seq<byte>>, n: nat)
    requires at + |s| <= |mem| && n <= |args| && StringsAt(mem, sz, args, n) && at + |s| <= Sp(sz, args, n) && sz % 4 == 0
    ensures StringsAt(Stored(mem, at, s), sz, args, n)
  {
    hide StringAt, Stored;
    forall k | 0 <= k < n ensures StringAt(Stored(mem, at, s), Slot(sz, args, k), args[k]) {
      SpBelow(sz, args, k + 1, n);
      StringKept(mem, at, s, Slot(sz, args, k), args[k]);
    }
  }

  /** One string more. */
  lemma StringPut(mem: seq<byte>, sz: nat, args: seq<seq<byte>>, n: nat)
    requires n < |args| && StringsAt(mem, sz, args, n) && sz % 4 == 0 && 0 <= Sp(sz, args, n + 1)
    requires Sp(sz, args, n + 1) + |args[n]| + 1 <= |mem|
    ensures StringsAt(Stored(mem, Sp(sz, args, n + 1), args[n] + [0]), sz, args, n + 1)
  {
    var at := Sp(sz, args, n + 1);
    SpDown(sz, args, n);
    StringsKept(mem, at, args[n] + [0], sz, args, n);
    var mem' := Stored(mem, at, args[n] + [0]);
    assert mem'[at..at + |args[n]|] == args[n];
    assert StringAt(mem', Slot(sz, args, n), args[n]);
  }

  /** The words in front of the strings. */
  function Ustack(sp: nat, argc: nat, slots: seq<uint32>): (ws: seq<uint32>)
    requires sp < 0x1_0000_0000 && argc < 0x1_0000_0000 && (argc + 1) * 4 <= sp
    ensures |ws| == |slots| + 4
  {
    [0xFFFF_FFFF, argc, sp - (argc + 1) * 4] + slots + [0]
  }

  ghost predicate SlotsOf(slots: seq<uint32>, sz: nat, args: seq<seq<byte>>, n: nat)
    requires n <= |args|
  {
    |slots| == n && forall k :: 0 <= k < n ==> slots[k] == Slot(sz, args, k)
  }

  lemma StoredInside(mem: seq<byte>, at: nat, s: seq<byte>, k: nat)
    requires at + |s| <= |mem| && k + 4 <= |s|
    ensures WordAt(Stored(mem, at, s), at + k) == WordAt(s, k)
  {
    var m := Stored(mem, at, s);
    assert m[at + k] == s[k];
    assert m[at + k + 1] == s[k + 1];
    assert m[at + k + 2] == s[k + 2];
    assert m[at + k + 3] == s[k + 3];
  }

  lemma WordPut(mem: seq<byte>, sp: nat, ws: seq<uint32>, i: nat)
    requires sp + 4 * |ws| <= |mem| && i < |ws|
    ensures WordAt(Stored(mem, sp, LeAll(ws)), sp + 4 * i) == ws[i]
  {
    hide LeAll, WordAt, Stored;
    WordOfAll(ws, i);
    StoredInside(mem, sp, LeAll(ws), 4 * i);
  }

  lemma WordsPut(mem: seq<byte>, sz: nat, args: seq<seq<byte>>, slots: seq<uint32>)
    requires 0 <= FinalSp(sz, args) && sz == |mem| <= 0x8000_0000 && sz % 4 == 0 && SlotsOf(slots, sz, args, |args|)
    ensures 0 <= Sp(sz, args, |args|) <= sz && |slots| == |args|
    ensures WordsAt(Stored(mem, FinalSp(sz, args), LeAll(Ustack(Sp(sz, args, |args|), |args|, slots))), FinalSp(sz, args), sz, args)
  {
    hide LeAll, Stored, WordAt, Sp;
    SpBelow(sz, args, 0, |args|);
    SpStart(mem, sz, args);
    var sp, ws := FinalSp(sz, args), Ustack(Sp(sz, args, |args|), |args|, slots);
    var m := Stored(mem, sp, LeAll(ws));
    WordPut(mem, sp, ws, 0);
    WordPut(mem, sp, ws, 1);
    WordPut(mem, sp, ws, 2);
    WordPut(mem, sp, ws, 3 + |args|);
    forall k | 0 <= k < |args| ensures WordAt(m, sp + 12 + 4 * k) == Slot(sz, args, k) {
      WordPut(mem, sp, ws, 3 + k);
      assert ws[3 + k] == slots[k];
    }
  }

  /** Layout: one guard page, then `stack` pages for user code up to the end of memory. */
  ghost predicate StackShape(user: seq<bool>, stack: nat) {
    && 0 < stack < |user| && !user[|user| - 1 - stack]
    && forall v :: |user| - stack <= v < |user| ==> user[v]
  }

  lemma PageBetween(a: nat, lo: nat, hi: nat)
    requires lo * PAGE <= a < hi * PAGE
    ensures lo <= a / PAGE < hi
  {
  }

  /** A write that begins below the stack and ends less than a word short of it, or beyond, meets the guard page. */
  lemma GuardStops(user: seq<bool>, stack: nat, va: nat, n: nat)
    requires StackShape(user, stack) && va + n <= |user| * PAGE && n > 0
    requires va + n > (|user| - stack) * PAGE - 4
    ensures Reachable(user, va, n) <==> va >= (|user| - stack) * PAGE
  {
    var bottom := (|user| - stack) * PAGE;
    if va >= bottom {
      forall a | va <= a < va + n ensures user[a / PAGE] {
        PageBetween(a, |user| - stack, |user|);
      }
    } else {
      var a := if va + n - 1 < bottom then va + n - 1 else bottom - 1;
      PageBetween(a, |user| - stack - 1, |user| - stack);
      assert !user[a / PAGE];
    }
  }

  /** No string that comes after strings which fit is so long that the stack pointer wraps below zero. */
  ghost predicate NoWrap(sz: nat, args: seq<seq<byte>>, bottom: int) {
    forall k :: 0 <= k < |args| && Sp(sz, args, k) >= bottom ==> |args[k]| + 1 <= Sp(sz, args, k)
  }

  /** Which holds if no string is longer than the program. */
  lemma ShortStrings(sz: nat, args: seq<seq<byte>>, bottom: int)
    requires forall k :: 0 <= k < |args| ==> |args[k]| < bottom
    ensures NoWrap(sz, args, bottom)
  {
  }

  /** Push the strings: all of them, unless there are too many or one reaches below the stack. */
  method PushStrings(m: UserMemory, args: seq<seq<byte>>, stack: nat) returns (ok: bool, sp: nat, slots: seq<uint32>)
    requires m.Valid() && StackShape(m.User(), stack) && NoWrap(m.pages * PAGE, args, (m.pages - stack) * PAGE)
    modifies m.vm
    ensures m.Valid() && OnlyBytes(old(m.vm.St()), m.vm.St(), m.d) && m.User() == old(m.User())
    ensures ok <==> |args| <= MAXARG && Sp(m.pages * PAGE, args, |args|) >= (m.pages - stack) * PAGE
    ensures ok ==> sp == Sp(m.pages * PAGE, args, |args|) && SlotsOf(slots, m.pages * PAGE, args, |args|)
    ensures ok ==> StringsAt(m.Mem(), m.pages * PAGE, args, |args|) && UpTo(m.Mem(), old(m.Mem()), (m.pages - stack) * PAGE)
  {
    hide Sp, StringsAt, StringAt, StackShape, Reachable, Stored, UserMemory.Valid, UserMemory.Mem, UserMemory.User, OnlyBytes;
    var sz, argc := m.pages * PAGE, 0;
    ghost var bottom := (m.pages - stack) * PAGE;
    ghost var st, user := m.vm.St(), m.User();
    StackBottom(user, stack);
    SpStart(m.Mem(), sz, args);
    OnlyBytesRefl(st, m.d);
    SizeBound(m);
    sp, slots := sz, [];
    while argc < |args|
      invariant 0 <= argc <= |args| && argc <= MAXARG && m.Valid() && m.User() == user && OnlyBytes(st, m.vm.St(), m.d)
      invariant sp == Sp(sz, args, argc) >= bottom && SlotsOf(slots, sz, args, argc)
      invariant StringsAt(m.Mem(), sz, args, argc) && UpTo(m.Mem(), old(m.Mem()), bottom)
    {
      if argc >= MAXARG {
        return false, 0, [];
      }
      ghost var was, st1 := m.Mem(), m.vm.St();
      SpDown(sz, args, argc);
      SpNext(sz, args, argc);
      SpBelow(sz, args, argc + 1, |args|);
      SpBelow(sz, args, 0, argc);
      sp := Down4(sp - (|args[argc]| + 1));
      GuardStops(user, stack, sp, |args[argc]| + 1);
      var done := m.Copyout(sp, args[argc] + [0]);
      OnlyBytesTrans(st, st1, m.vm.St(), m.d);
      if !done {
        return false, 0, [];
      }
      StringPut(was, sz, args, argc);
      slots := slots + [sp];
      argc := argc + 1;
    }
    ok := true;
  }

  lemma SizeBound(m: UserMemory)
    requires m.Valid()
    ensures m.pages * PAGE <= 0x8000_0000 && |m.User()| == m.pages && |m.Mem()| == m.pages * PAGE
  {
  }

  ghost predicate UpTo(mem: seq<byte>, mem0: seq<byte>, n: nat) {
    n <= |mem| && n <= |mem0| && forall a :: 0 <= a < n ==> mem[a] == mem0[a]
  }

  lemma StackBottom(user: seq<bool>, stack: nat)
    requires StackShape(user, stack)
    ensures 0 < stack < |user| && PAGE <= (|user| - stack) * PAGE < |user| * PAGE
    ensures |user| * PAGE % 4 == 0
  {
  }

  lemma SpStart(mem: seq<byte>, sz: nat, args: seq<seq<byte>>)
    ensures Sp(sz, args, 0) == sz && StringsAt(mem, sz, args, 0)
  {
  }

  lemma FinalAligned(sz: nat, args: seq<seq<byte>>)
    requires sz % 4 == 0
    ensures FinalSp(sz, args) % 4 == 0 && FinalSp(sz, args) + 4 * (|args| + 4) == Sp(sz, args, |args|) <= sz
  {
    SpDown(sz, args, |args|);
    SpBelow(sz, args, 0, |args|);
  }

  lemma SpNext(sz: nat, args: seq<seq<byte>>, k: nat)
    requires k < |args|
    ensures Sp(sz, args, k + 1) == Down4(Sp(sz, args, k) - (|args[k]| + 1))
  {
  }

  /** The stack of a new program: exec with one stack page, exec2 with the number asked for. It is built exactly when
      there are at most MAXARG arguments and everything fits above the guard page. */
  method BuildStack(m: UserMemory, args: seq<seq<byte>>, stack: nat) returns (r: Option<nat>)
    requires m.Valid() && StackShape(m.User(), stack) && NoWrap(m.pages * PAGE, args, (m.pages - stack) * PAGE)
    modifies m.vm
    ensures m.Valid() && OnlyBytes(old(m.vm.St()), m.vm.St(), m.d) && m.User() == old(m.User())
    ensures r.Some? <==> |args| <= MAXARG && FinalSp(m.pages * PAGE, args) >= (m.pages - stack) * PAGE
    ensures r.Some? ==> r.value == FinalSp(m.pages * PAGE, args) && r.value % 4 == 0 && WordsAt(m.Mem(), r.value, m.pages * PAGE, args)
    ensures r.Some? ==> StringsAt(m.Mem(), m.pages * PAGE, args, |args|) && UpTo(m.Mem(), old(m.Mem()), (m.pages - stack) * PAGE)
    ensures r.Some? ==> LaidOut(m.pages * PAGE, args, r.value)
  {
    hide Sp, StringsAt, StackShape, Reachable, Stored, WordsAt, LaidOut, LeAll, SlotsOf, Ustack, UserMemory.Valid, UserMemory.Mem,
      UserMemory.User, OnlyBytes;
    ghost var st, user := m.vm.St(), m.User();
    StackBottom(user, stack);
    SizeBound(m);
    var sz, argc := m.pages * PAGE, |args|;
    FinalAligned(sz, args);
    StackLaidOut(sz, args);
    var ok, sp, slots := PushStrings(m, args, stack);
    if !ok {
      return None;
    }
    WordsPut(m.Mem(), sz, args, slots);
    StringsKept(m.Mem(), FinalSp(sz, args), LeAll(Ustack(sp, argc, slots)), sz, args, argc);
    var words := Ustack(sp, argc, slots);
    sp := sp - (3 + argc + 1) * 4;
    GuardStops(user, stack, sp, |LeAll(words)|);
    ghost var st1 := m.vm.St();
    ok := m.Copyout(sp, LeAll(words));
    OnlyBytesTrans(st, st1, m.vm.St(), m.d);
    if !ok {
      return None;
    }
    r := Some(sp);
  }

  // ---- the memory it is built in ----

  /** A zeroed page that user code may touch is at x. */
  ghost predicate Blank(mem: seq<seq<nat>>, d: nat, x: nat) {
    UserPage(mem, d, x) && Row(mem, PageOf(Lookup(mem, d, x).value)) == ZeroPage()
  }

  lemma GrownBlank(st: State, st': State, d: nat, lo: nat, hi: nat, x: nat)
    requires GrownBy(st, st', d, lo, hi) && lo <= x < hi
    ensures Blank(st'.mem, d, x)
  {
    assert PageAt(st, st', d, x, ZeroPage(), 6);
  }

  lemma BlankByte(mem: seq<seq<nat>>, d: nat, a: nat)
    requires Lookup(mem, d, a / PAGE).Some? && Row(mem, PageOf(Lookup(mem, d, a / PAGE).value)) == ZeroPage()
    ensures UserByte(mem, d, a) == 0
  {
  }

  /** Pages that kept place and contents keep their bytes. */
  lemma SameByte(mem: seq<seq<nat>>, mem': seq<seq<nat>>, d: nat, a: nat)
    requires Lookup(mem, d, a / PAGE).Some? && Lookup(mem', d, a / PAGE).Some?
    requires var p := PageOf(Lookup(mem, d, a / PAGE).value);
             PageOf(Lookup(mem', d, a / PAGE).value) == p && Row(mem', p) == Row(mem, p)
    ensures UserByte(mem', d, a) == UserByte(mem, d, a)
  {
    var p := PageOf(Lookup(mem, d, a / PAGE).value);
    assert Get(mem', p, a % PAGE / 4) == Get(mem, p, a % PAGE / 4);
  }

  lemma RoundPages(n: nat, m: nat)
    requires n <= m
    ensures Pages(n * PAGE) == n && Pages(m * PAGE) == m && n * PAGE <= m * PAGE && (m * PAGE >= KERNBASE <==> m >= KERNPAGE)
  {
  }

  lemma GrownLookups(st: State, st1: State, d: nat, lo: nat, hi: nat, x: nat)
    requires GrownBy(st, st1, d, lo, hi) && x < hi <= KERNPAGE && (x < lo ==> Lookup(st.mem, d, x).Some?)
    ensures Lookup(st1.mem, d, x).Some? && HasTable(st1.mem, d, x / ENTRIES)
    ensures x < lo ==> Lookup(st1.mem, d, x) == Lookup(st.mem, d, x)
  {
    if x >= lo {
      GrownBlank(st, st1, d, lo, hi, x);
    }
  }

  /** Page x of the new program, once its page is allocated and the guard page at lo cleared. */
  ghost predicate PageMade(st: State, st2: State, d: nat, lo: nat, x: nat) {
    && Lookup(st2.mem, d, x).Some? && (x == lo ==> !UserPage(st2.mem, d, x)) && (x > lo ==> UserPage(st2.mem, d, x))
    && (forall a: nat :: a / PAGE == x ==> UserByte(st2.mem, d, a) == if x < lo then UserByte(st.mem, d, a) else 0)
  }

  lemma MadePage(st: State, st1: State, st2: State, d: nat, lo: nat, hi: nat, x: nat)
    requires Inv(st) && Own(st, d) == Dir && GrownBy(st, st1, d, lo, hi) && x < hi <= KERNPAGE && lo < hi
    requires x < lo ==> Lookup(st.mem, d, x).Some?
    requires Lookup(st1.mem, d, lo).Some? && LookupUpdated(st1, st2, d, lo, Some(ClearUser(Lookup(st1.mem, d, lo).value)))
    requires st2.owner == st1.owner && forall p: nat :: !Own(st1, p).Table? ==> Row(st2.mem, p) == Row(st1.mem, p)
    ensures PageMade(st, st2, d, lo, x)
  {
    hide Inv, UserByte, Row, Grew;
    GrownFacts(st, st1, d, lo, hi);
    GrownLookups(st, st1, d, lo, hi, x);
    UnmapOwner(st1, d, x);
    var p := PageOf(Lookup(st1.mem, d, x).value);
    assert Row(st2.mem, p) == Row(st1.mem, p);
    if x < lo {
      UnmapOwner(st, d, x);
    } else {
      GrownBlank(st, st1, d, lo, hi, x);
    }
    forall a: nat | a / PAGE == x ensures UserByte(st2.mem, d, a) == if x < lo then UserByte(st.mem, d, a) else 0 {
      if x < lo {
        SameByte(st.mem, st2.mem, d, a);
      } else {
        BlankByte(st2.mem, d, a);
      }
    }
  }

  lemma GrownFacts(st: State, st1: State, d: nat, lo: nat, hi: nat)
    requires GrownBy(st, st1, d, lo, hi)
    ensures Inv(st1) && Own(st1, d) == Dir && forall p: nat :: Own(st, p).User? ==> Row(st1.mem, p) == Row(st.mem, p)
  {
  }

  lemma MadeStack(st: State, st2: State, d: nat, lo: nat, hi: nat)
    requires lo + 1 < hi && forall x: nat :: x < hi ==> PageMade(st, st2, d, lo, x)
    ensures StackShape(UserBits(st2.mem, d, hi), hi - lo - 1)
    ensures forall x: nat :: x < hi ==> Lookup(st2.mem, d, x).Some?
    ensures forall a: nat :: a < hi * PAGE ==> UserByte(st2.mem, d, a) == if a < lo * PAGE then UserByte(st.mem, d, a) else 0
  {
    hide UserByte, Lookup;
    var us := UserBits(st2.mem, d, hi);
    forall x: nat | x < hi ensures Lookup(st2.mem, d, x).Some? {
      assert PageMade(st, st2, d, lo, x);
    }
    forall v: nat | v < hi ensures (v == lo ==> !us[v]) && (v > lo ==> us[v]) {
      assert PageMade(st, st2, d, lo, v);
    }
    forall a: nat | a < hi * PAGE ensures UserByte(st2.mem, d, a) == if a < lo * PAGE then UserByte(st.mem, d, a) else 0 {
      PageBetween(a, 0, hi);
      assert PageMade(st, st2, d, lo, a / PAGE);
      assert a < lo * PAGE <==> a / PAGE < lo;
    }
  }

  /** The memory of a loaded program with a guard page and `stack` zeroed pages above it. */
  ghost predicate HasStack(m: UserMemory, mem: seq<seq<nat>>, n: nat, stack: nat)
    reads m.vm
  {
    && m.Valid() && m.pages == n + 1 + stack && StackShape(m.User(), stack)
    && (forall a: nat :: a < n * PAGE ==> UserByte(m.vm.mem, m.d, a) == UserByte(mem, m.d, a))
    && (forall a: nat :: n * PAGE <= a < m.pages * PAGE ==> UserByte(m.vm.mem, m.d, a) == 0)
  }

  /** exec's and exec2's allocuvm and clearpteu: a program of n pages gets its stack exactly when it stays below the
      kernel and there are pages for it. */
  method NewStack(vm: Machine, d: nat, n: nat, stack: nat) returns (m: UserMemory?)
    requires vm.Valid() && Own(vm.St(), d) == Dir && 0 < stack && n <= KERNPAGE
    requires forall x: nat :: x < n ==> Lookup(vm.mem, d, x).Some?
    requires forall x: nat :: n <= x < KERNPAGE ==> Lookup(vm.mem, d, x) == None
    modifies vm
    ensures vm.Valid()
    ensures m != null <==> n + 1 + stack < KERNPAGE && |old(vm.free)| >= 1 + stack + Missing(old(vm.mem), d, n, n + 1 + stack)
    ensures m != null ==> fresh(m) && m.vm == vm && m.d == d && HasStack(m, old(vm.mem), n, stack)
  {
    hide Inv, Lookup, UserByte, Missing, Row, StackShape, GrownBy, PageMade;
    var sz := n * PAGE;
    ghost var st := vm.St();
    RoundPages(n, n + 1 + stack);
    sz := vm.Allocuvm(d, sz, (n + 1 + stack) * PAGE);
    if sz == 0 {
      return null;
    }
    ghost var st1 := vm.St();
    GrownLookups(st, st1, d, n, n + 1 + stack, n);
    GrownFacts(st, st1, d, n, n + 1 + stack);
    var _ := vm.Clearpteu(d, n);
    forall x: nat | x < n + 1 + stack ensures PageMade(st, vm.St(), d, n, x) {
      MadePage(st, st1, vm.St(), d, n, n + 1 + stack, x);
    }
    MadeStack(st, vm.St(), d, n, n + 1 + stack);
    m := new UserMemory(vm, d, n + 1 + stack);
  }
}
