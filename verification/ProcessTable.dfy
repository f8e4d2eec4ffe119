/** fork, exit, wait, kill and wakeup over the process table (proc.c). Each method is one critical section of
    ptable.lock, so what holds before and after each of them holds whenever that lock is free. */
module ProcessTable {
  import opened Blocks

  const NPROC := 64

  datatype RunState = Unused | Embryo | Sleeping | Runnable | Running | Zombie

  /** What a process sleeps on: a process (only wait does that), or any other address. */
  datatype Chan = NoChan | OfProc(i: nat) | Other(x: int)

  datatype Proc = Proc(state: RunState, pid: nat, parent: Option<nat>, chan: Chan, killed: bool)

  predicate Live(p: Proc) {
    p.state.Sleeping? || p.state.Runnable? || p.state.Running?
  }

  /** Process i sleeps in wait. */
  predicate InWait(p: Proc, i: nat) {
    p.state.Sleeping? && p.chan == OfProc(i)
  }

  /** A process other than init has a parent that can still wait for it. */
  ghost predicate Family(procs: seq<Proc>, init: nat, j: nat)
    requires j < |procs|
  {
    match procs[j].parent
    case None => j == init || procs[j].state.Unused? || procs[j].state.Embryo?
    case Some(p) => p < |procs| && p != j && j != init && Live(procs[p])
  }

  /** The parent of a zombie is not asleep in wait. */
  ghost predicate Attended(procs: seq<Proc>, j: nat)
    requires j < |procs|
  {
    procs[j].state.Zombie? && procs[j].parent.Some? && procs[j].parent.value < |procs| ==>
      !InWait(procs[procs[j].parent.value], procs[j].parent.value)
  }

  ghost predicate Inv(procs: seq<Proc>, init: nat) {
    && |procs| == NPROC && init < NPROC && Live(procs[init])
    && (forall j :: 0 <= j < |procs| ==> Family(procs, init, j) && Attended(procs, j))
  }

  /** wakeup1 on one process. */
  function Wake(p: Proc, chan: Chan): Proc {
    if p.state.Sleeping? && p.chan == chan then p.(state := Runnable) else p
  }

  function Reparent(p: Proc, cur: nat, init: nat): Proc {
    if p.parent == Some(cur) then p.(parent := Some(init)) else p
  }

  ghost predicate ZombieChild(procs: seq<Proc>, cur: nat, k: int)
    requires 0 <= k < |procs|
  {
    procs[k].state.Zombie? && procs[k].parent == Some(cur)
  }

  ghost predicate HasZombie(procs: seq<Proc>, cur: nat, n: nat)
    requires n <= |procs|
  {
    exists k :: 0 <= k < n && ZombieChild(procs, cur, k)
  }

  /** Process k after exit by cur, whose parent is `up`: parent and, if a zombie is passed on, init are woken. */
  ghost function ExitedProc(procs: seq<Proc>, init: nat, cur: nat, up: nat, k: nat): Proc
    requires k < |procs|
  {
    var p1 := Wake(procs[k], OfProc(up));
    var p2 := if HasZombie(procs, cur, |procs|) then Wake(p1, OfProc(init)) else p1;
    var p3 := Reparent(p2, cur, init);
    if k == cur then p3.(state := Zombie) else p3
  }

  ghost predicate Exited(procs: seq<Proc>, procs': seq<Proc>, init: nat, cur: nat, up: nat) {
    |procs'| == |procs| && forall k :: 0 <= k < |procs| ==> procs'[k] == ExitedProc(procs, init, cur, up, k)
  }

  /** What exit by cur leaves of process k: a zombie, if it is cur itself; init for a parent, if that was cur; and awake,
      if it slept in wait and is cur's parent, or init and cur leaves it a zombie. Nothing else of it changes. */
  ghost predicate Left(procs: seq<Proc>, procs': seq<Proc>, init: nat, cur: nat, k: nat)
    requires cur < |procs| && k < |procs| == |procs'|
  {
    var p, p' := procs[k], procs'[k];
    var wakes := p.chan.OfProc? && (Some(p.chan.i) == procs[cur].parent ||
      (p.chan.i == init && exists j :: 0 <= j < |procs| && procs[j].state.Zombie? && procs[j].parent == Some(cur)));
    && p'.pid == p.pid && p'.chan == p.chan && p'.killed == p.killed
    && p'.parent == (if p.parent == Some(cur) then Some(init) else p.parent)
    && p'.state == if k == cur then Zombie else if p.state.Sleeping? && wakes then Runnable else p.state
  }

  lemma ExitLeaves(procs: seq<Proc>, procs': seq<Proc>, init: nat, cur: nat, up: nat, k: nat)
    requires cur < |procs| && k < |procs| && procs[cur].parent == Some(up) && Exited(procs, procs', init, cur, up)
    ensures Left(procs, procs', init, cur, k)
  {
    if j :| 0 <= j < |procs| && procs[j].state.Zombie? && procs[j].parent == Some(cur) {
      assert ZombieChild(procs, cur, j);
    }
    assert procs'[k] == ExitedProc(procs, init, cur, up, k);
  }

  /** Nobody is orphaned, and no zombie's parent is left asleep: neither the parent nor init. */
  lemma ExitKeepsInv(procs: seq<Proc>, procs': seq<Proc>, init: nat, cur: nat, up: nat)
    requires Inv(procs, init) && cur < NPROC && cur != init && procs[cur].state.Running? && procs[cur].parent == Some(up)
    requires Exited(procs, procs', init, cur, up)
    ensures Inv(procs', init)
  {
    assert Family(procs, init, cur) && Family(procs, init, init);
    forall j | 0 <= j < |procs'| ensures Family(procs', init, j) && Attended(procs', j) {
      assert Family(procs, init, j) && Attended(procs, j);
      assert procs'[j] == ExitedProc(procs, init, cur, up, j);
      if ZombieChild(procs, cur, j) {
        assert HasZombie(procs, cur, |procs|);
      }
    }
  }

  /** wait reaped child k, the first zombie among cur's children. */
  ghost predicate FirstReaped(procs: seq<Proc>, procs': seq<Proc>, cur: nat, k: int, pid: nat)
    requires 0 <= k < |procs|
  {
    && ZombieChild(procs, cur, k) && !HasZombie(procs, cur, k) && pid == procs[k].pid
    && procs' == procs[k := Proc(Unused, 0, None, procs[k].chan, false)]
  }

  ghost predicate Childless(procs: seq<Proc>, cur: nat) {
    forall k :: 0 <= k < |procs| ==> procs[k].parent != Some(cur)
  }

  datatype WaitResult = Reaped(pid: nat) | NoChild | Blocked

  class Ptable {
    var procs: seq<Proc>
    const init: nat

    ghost predicate Valid()
      reads this
    {
      Inv(procs, init)
    }

    /** userinit has just made init runnable; all other slots are empty. */
    constructor (init: nat, pid: nat)
      requires init < NPROC
      ensures Valid() && this.init == init && procs[init] == Proc(Runnable, pid, None, NoChan, false)
    {
      this.init := init;
      procs := seq(NPROC, i => if i == init then Proc(Runnable, pid, None, NoChan, false) else Proc(Unused, 0, None, NoChan, false));
    }

    /** wakeup1: whoever sleeps on this channel, and nobody else, is made runnable. */
    method Wakeup1(chan: Chan)
      modifies this
      ensures |procs| == |old(procs)| && forall k :: 0 <= k < |procs| ==> procs[k] == Wake(old(procs)[k], chan)
      ensures forall k :: 0 <= k < |procs| && old(procs)[k].state.Sleeping? && old(procs)[k].chan == chan ==>
                procs[k] == Proc(Runnable, old(procs)[k].pid, old(procs)[k].parent, chan, old(procs)[k].killed)
      ensures forall k :: 0 <= k < |procs| && !(old(procs)[k].state.Sleeping? && old(procs)[k].chan == chan) ==>
                procs[k] == old(procs)[k]
    {
      var i := 0;
      while i < |procs|
        invariant 0 <= i <= |procs| == |old(procs)|
        invariant forall k :: 0 <= k < |procs| ==> procs[k] == if k < i then Wake(old(procs)[k], chan) else old(procs)[k]
      {
        if procs[i].state.Sleeping? && procs[i].chan == chan {
          procs := procs[i := procs[i].(state := Runnable)];
        }
        i := i + 1;
      }
    }

    method Wakeup(chan: Chan)
      requires Valid()
      modifies this
      ensures Valid() && forall k :: 0 <= k < NPROC ==> procs[k] == Wake(old(procs)[k], chan)
      ensures forall k :: 0 <= k < NPROC && old(procs)[k].state.Sleeping? && old(procs)[k].chan == chan ==>
                procs[k] == Proc(Runnable, old(procs)[k].pid, old(procs)[k].parent, chan, old(procs)[k].killed)
      ensures forall k :: 0 <= k < NPROC && !(old(procs)[k].state.Sleeping? && old(procs)[k].chan == chan) ==>
                procs[k] == old(procs)[k]
    {
      ghost var was := procs;
      Wakeup1(chan);
      forall j | 0 <= j < |procs| ensures Family(procs, init, j) && Attended(procs, j) {
        assert Family(was, init, j) && Attended(was, j);
      }
    }

    /** exit; false is its panic for init. */
    method Exit(cur: nat) returns (ok: bool)
      requires Valid() && cur < NPROC && procs[cur].state.Running?
      modifies this
      ensures Valid() && (ok <==> cur != init)
      ensures !ok ==> procs == old(procs)
      ensures ok ==> old(procs)[cur].parent.Some? && Exited(old(procs), procs, init, cur, old(procs)[cur].parent.value)
      ensures ok ==> forall k :: 0 <= k < NPROC ==> Left(old(procs), procs, init, cur, k)
    {
      if cur == init {
        return false;
      }
      ghost var was := procs;
      assert Family(was, init, cur);
      var up := procs[cur].parent.value;
      Wakeup1(OfProc(up));
      var i := 0;
      ghost var seen := false;
      while i < |procs|
        invariant 0 <= i <= |procs| == |was| && (seen <==> HasZombie(was, cur, i))
        invariant forall k :: 0 <= k < |procs| ==> procs[k] == PassedOn(was, init, cur, up, k, i, seen)
      {
        assert procs[i] == PassedOn(was, init, cur, up, i, i, seen);
        if procs[i].parent == Some(cur) {
          procs := procs[i := procs[i].(parent := Some(init))];
          if procs[i].state.Zombie? {
            assert ZombieChild(was, cur, i);
            seen := true;
            Wakeup1(OfProc(init));
          }
        }
        i := i + 1;
      }
      procs := procs[cur := procs[cur].(state := Zombie)];
      ExitKeepsInv(was, procs, init, cur, up);
      forall k | 0 <= k < NPROC ensures Left(was, procs, init, cur, k) {
        ExitLeaves(was, procs, init, cur, up, k);
      }
      ok := true;
    }

    /** wait from where it holds ptable.lock, on its first turn or after it was woken: a zombie child is reaped, the
        first in the table; or there is nothing to wait for; or the caller goes to sleep. */
    method Wait(cur: nat) returns (r: WaitResult)
      requires Valid() && cur < NPROC && procs[cur].state.Running?
      modifies this
      ensures Valid() && |procs| == |old(procs)|
      ensures r.Reaped? <==> HasZombie(old(procs), cur, NPROC)
      ensures r.Reaped? ==> exists k :: 0 <= k < NPROC && FirstReaped(old(procs), procs, cur, k, r.pid)
      ensures r.NoChild? <==> !HasZombie(old(procs), cur, NPROC) && (old(procs)[cur].killed || Childless(old(procs), cur))
      ensures r.NoChild? ==> procs == old(procs)
      ensures r.Blocked? ==> procs == old(procs)[cur := old(procs)[cur].(state := Sleeping, chan := OfProc(cur))]
    {
      var havekids, i := false, 0;
      while i < NPROC
        invariant 0 <= i <= NPROC && procs == old(procs) && !HasZombie(procs, cur, i)
        invariant havekids <==> exists k :: 0 <= k < i && procs[k].parent == Some(cur)
      {
        if procs[i].parent == Some(cur) {
          havekids := true;
          if procs[i].state.Zombie? {
            r := Reaped(procs[i].pid);
            assert ZombieChild(procs, cur, i);
            procs := procs[i := Proc(Unused, 0, None, procs[i].chan, false)];
            ReapKeepsInv(old(procs), init, i);
            assert FirstReaped(old(procs), procs, cur, i, r.pid);
            return;
          }
        }
        i := i + 1;
      }
      if !havekids || procs[cur].killed {
        return NoChild;
      }
      procs := procs[cur := procs[cur].(state := Sleeping, chan := OfProc(cur))];
      WaitKeepsInv(old(procs), init, cur);
      r := Blocked;
    }

    /** kill: the first process with this pid, woken if it sleeps, whatever it sleeps on. */
    method KillProc(pid: nat) returns (found: bool)
      requires Valid()
      modifies this
      ensures Valid() && (found <==> exists k :: 0 <= k < NPROC && old(procs)[k].pid == pid)
      ensures !found ==> procs == old(procs)
      ensures found ==> exists k :: 0 <= k < NPROC && FirstKilled(old(procs), procs, pid, k)
      ensures forall k :: 0 <= k < NPROC && procs[k].state.Sleeping? ==> procs[k] == old(procs)[k]
    {
      var i := 0;
      while i < NPROC
        invariant 0 <= i <= NPROC && procs == old(procs) && forall k :: 0 <= k < i ==> procs[k].pid != pid
      {
        if procs[i].pid == pid {
          procs := procs[i := procs[i].(killed := true)];
          if procs[i].state.Sleeping? {
            procs := procs[i := procs[i].(state := Runnable)];
          }
          assert procs == old(procs)[i := procs[i]];
          ChangeKeepsInv(old(procs), init, i, procs[i]);
          assert FirstKilled(old(procs), procs, pid, i);
          return true;
        }
        i := i + 1;
      }
      found := false;
    }

    /** sleep on anything but a process: disk buffers, locks, pipes, ticks. */
    method Sleep(cur: nat, x: int)
      requires Valid() && cur < NPROC && procs[cur].state.Running?
      modifies this
      ensures Valid() && procs == old(procs)[cur := old(procs)[cur].(state := Sleeping, chan := Other(x))]
    {
      procs := procs[cur := procs[cur].(state := Sleeping, chan := Other(x))];
      ChangeKeepsInv(old(procs), init, cur, procs[cur]);
    }

    /** The scheduler runs a runnable process, which tidies its channel; or a running one yields. */
    method Switch(i: nat)
      requires Valid() && i < NPROC && (procs[i].state.Runnable? || procs[i].state.Running?)
      modifies this
      ensures Valid() && procs == old(procs)[i := old(procs)[i].(chan := NoChan, state := if old(procs)[i].state.Runnable? then Running else Runnable)]
    {
      procs := procs[i := procs[i].(chan := NoChan, state := if procs[i].state.Runnable? then Running else Runnable)];
      ChangeKeepsInv(old(procs), init, i, procs[i]);
    }

    /** allocproc's search: the first unused slot. */
    method Alloc(pid: nat) returns (r: Option<nat>)
      requires Valid()
      modifies this
      ensures Valid() && (r.None? <==> forall k :: 0 <= k < NPROC ==> !old(procs)[k].state.Unused?)
      ensures r.None? ==> procs == old(procs)
      ensures r.Some? ==> r.value < NPROC && old(procs)[r.value].state.Unused? &&
                          (forall k :: 0 <= k < r.value ==> !old(procs)[k].state.Unused?) &&
                          procs == old(procs)[r.value := old(procs)[r.value].(state := Embryo, pid := pid)]
    {
      var i := 0;
      while i < NPROC
        invariant 0 <= i <= NPROC && procs == old(procs) && forall k :: 0 <= k < i ==> !procs[k].state.Unused?
      {
        if procs[i].state.Unused? {
          procs := procs[i := procs[i].(state := Embryo, pid := pid)];
          ChangeKeepsInv(old(procs), init, i, procs[i]);
          return Some(i);
        }
        i := i + 1;
      }
      r := None;
    }

    /** The end of fork: the child gets its parent and becomes runnable, or, if copying failed, its slot is free again. */
    method EndFork(np: nat, cur: nat, ok: bool)
      requires Valid() && np < NPROC && cur < NPROC && procs[np].state.Embryo? && procs[cur].state.Running?
      modifies this
      ensures Valid() && |procs| == NPROC
      ensures ok ==> procs == old(procs)[np := old(procs)[np].(parent := Some(cur), state := Runnable)]
      ensures !ok ==> procs == old(procs)[np := old(procs)[np].(state := Unused)]
    {
      procs := procs[np := if ok then procs[np].(parent := Some(cur), state := Runnable) else procs[np].(state := Unused)];
      forall j | 0 <= j < |procs| ensures Family(procs, init, j) && Attended(procs, j) {
        assert Family(old(procs), init, j) && Attended(old(procs), j);
      }
    }
  }

  /** Slot k is the first with this pid. It is killed and, if it slept, runnable; the rest of it and every other slot is
      as before. */
  ghost predicate FirstKilled(procs: seq<Proc>, procs': seq<Proc>, pid: nat, k: int)
    requires 0 <= k < |procs|
  {
    && procs[k].pid == pid && (forall j :: 0 <= j < k ==> procs[j].pid != pid)
    && |procs'| == |procs| && (forall j :: 0 <= j < |procs| && j != k ==> procs'[j] == procs[j])
    && procs'[k].killed && (if procs[k].state.Sleeping? then procs'[k].state.Runnable? else procs'[k].state == procs[k].state)
    && procs'[k].pid == pid && procs'[k].parent == procs[k].parent && procs'[k].chan == procs[k].chan
  }

  /** Slot i changes without dying, being born, moving in the family or going to sleep in wait. */
  lemma ChangeKeepsInv(procs: seq<Proc>, init: nat, i: nat, p: Proc)
    requires Inv(procs, init) && i < NPROC && p.parent == procs[i].parent && (Live(procs[i]) ==> Live(p))
    requires p.state.Zombie? <==> procs[i].state.Zombie?
    requires procs[i].state.Unused? || procs[i].state.Embryo? <==> p.state.Unused? || p.state.Embryo?
    requires InWait(p, i) ==> InWait(procs[i], i)
    ensures Inv(procs[i := p], init)
  {
    var procs' := procs[i := p];
    forall j | 0 <= j < |procs'| ensures Family(procs', init, j) && Attended(procs', j) {
      assert Family(procs, init, j) && Attended(procs, j);
    }
  }

  /** Process k after i turns of exit's loop. */
  ghost function PassedOn(procs: seq<Proc>, init: nat, cur: nat, up: nat, k: int, i: int, seen: bool): Proc
    requires 0 <= k < |procs|
  {
    var p1 := Wake(procs[k], OfProc(up));
    var p2 := if seen then Wake(p1, OfProc(init)) else p1;
    if k < i then Reparent(p2, cur, init) else p2
  }

  lemma ReapKeepsInv(procs: seq<Proc>, init: nat, i: nat)
    requires Inv(procs, init) && i < NPROC && procs[i].state.Zombie?
    ensures Inv(procs[i := Proc(Unused, 0, None, procs[i].chan, false)], init)
  {
    var procs' := procs[i := Proc(Unused, 0, None, procs[i].chan, false)];
    forall j | 0 <= j < |procs'| ensures Family(procs', init, j) && Attended(procs', j) {
      assert Family(procs, init, j) && Attended(procs, j);
    }
  }

  /** Going to sleep is safe because no child is a zombie. */
  lemma WaitKeepsInv(procs: seq<Proc>, init: nat, cur: nat)
    requires Inv(procs, init) && cur < NPROC && procs[cur].state.Running? && !HasZombie(procs, cur, NPROC)
    ensures Inv(procs[cur := procs[cur].(state := Sleeping, chan := OfProc(cur))], init)
  {
    var procs' := procs[cur := procs[cur].(state := Sleeping, chan := OfProc(cur))];
    forall j | 0 <= j < |procs'| ensures Family(procs', init, j) && Attended(procs', j) {
      assert Family(procs, init, j) && Attended(procs, j) && !ZombieChild(procs, cur, j);
    }
  }
}
