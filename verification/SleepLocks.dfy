/** Sleep locks, sleep and wakeup (sleeplock.c, proc.c) as an interleaved system: any number of processes and locks,
    each step one statement, spin locks explicit. */
module SleepLocks {
  import opened Blocks

  type Pid = int
  type Lock = int

  /** Where a process is. */
  datatype Pc =
    | Idle
    // acquiresleep(l), with sleep(l, &l->lk) inside its loop
    | WantLk(l: Lock)        // acquire(&l->lk)
    | Test(l: Lock)          // while l->locked
    | WantTable(l: Lock)     // sleep: acquire(&ptable.lock)
    | DropLk(l: Lock)        //   release(&l->lk)
    | Enter(l: Lock)         //   state = SLEEPING, sched() gives up ptable.lock
    | Asleep(l: Lock)        //   sched() returns, with ptable.lock, once RUNNABLE
    | Tidy(l: Lock)          //   release(&ptable.lock), acquire(&l->lk)
    | Leave(l: Lock)         // locked is set: release(&l->lk)
    // releasesleep(l), with wakeup(l) at its end
    | WantRel(l: Lock)       // acquire(&l->lk)
    | Clear(l: Lock)         // l->locked = 0
    | WantWake(l: Lock)      // wakeup: acquire(&ptable.lock)
    | Wake(l: Lock)          //   wakeup1
    | Woke(l: Lock)          //   release(&ptable.lock)
    | Done(l: Lock)          // release(&l->lk)
    // kill(q)
    | WantKill(q: Pid)       // acquire(&ptable.lock)
    | Killing(q: Pid)        // wake q if it sleeps
    | KillDone               // release(&ptable.lock)

  /** `woken` holds the sleepers that are RUNNABLE again, `spin` and `table` who holds each spin lock, `locked` and
      `lkpid` the fields of the sleep locks, and `held` what each process believes it has locked. */
  datatype State = State(pc: map<Pid, Pc>, woken: set<Pid>, spin: map<Lock, Pid>, table: Option<Pid>,
                         locked: set<Lock>, lkpid: map<Lock, Pid>, held: map<Lock, set<Pid>>)

  /** What an idle process does next. */
  datatype Choice = Acquire(l: Lock) | Release(l: Lock) | Kill(q: Pid)

  predicate HasLk(pc: Pc, l: Lock) {
    match pc
    case Test(k) => k == l
    case WantTable(k) => k == l
    case DropLk(k) => k == l
    case Leave(k) => k == l
    case Clear(k) => k == l
    case WantWake(k) => k == l
    case Wake(k) => k == l
    case Woke(k) => k == l
    case Done(k) => k == l
    case _ => false
  }

  predicate HasTable(pc: Pc) {
    pc.DropLk? || pc.Enter? || pc.Tidy? || pc.Wake? || pc.Woke? || pc.Killing? || pc.KillDone?
  }

  ghost function Holders(s: State, l: Lock): set<Pid> {
    if l in s.held then s.held[l] else {}
  }

  function Sleepers(s: State, l: Lock): set<Pid> {
    set q | q in s.pc && s.pc[q] == Asleep(l)
  }

  function At(s: State, p: Pid, pc: Pc): State {
    s.(pc := s.pc[p := pc])
  }

  ghost function Hold(s: State, l: Lock, ps: set<Pid>): State {
    s.(held := s.held[l := ps])
  }

  /** A process moves by its own steps only. */
  ghost predicate OnlyMoved(s: State, s': State, p: Pid) {
    p in s'.pc && s'.pc == s.pc[p := s'.pc[p]]
  }

  /** The step process p takes, if it can take one; c is used only where p is free to choose. */
  ghost function Step(s: State, p: Pid, c: Choice): (r: Option<State>)
    requires p in s.pc
    ensures r.Some? ==> OnlyMoved(s, r.value, p)
  {
    match s.pc[p]
    case Idle => BeginStep(s, p, c)
    case WantLk(_) => AcquireStep(s, p)
    case Test(_) => AcquireStep(s, p)
    case Leave(_) => AcquireStep(s, p)
    case WantTable(_) => SleepStep(s, p)
    case DropLk(_) => SleepStep(s, p)
    case Enter(_) => SleepStep(s, p)
    case Asleep(_) => SleepStep(s, p)
    case Tidy(_) => SleepStep(s, p)
    case WantRel(_) => ReleaseStep(s, p)
    case Clear(_) => ReleaseStep(s, p)
    case Done(_) => ReleaseStep(s, p)
    case WantWake(_) => WakeStep(s, p)
    case Wake(_) => WakeStep(s, p)
    case Woke(_) => WakeStep(s, p)
    case WantKill(_) => KillStep(s, p)
    case Killing(_) => KillStep(s, p)
    case KillDone => KillStep(s, p)
  }

  ghost function BeginStep(s: State, p: Pid, c: Choice): (r: Option<State>)
    ensures r.Some? ==> OnlyMoved(s, r.value, p)
  {
    match c
    case Acquire(l) => Some(At(s, p, WantLk(l)))
    case Release(l) => if p in Holders(s, l) then Some(At(s, p, WantRel(l))) else None
    case Kill(q) => Some(At(s, p, WantKill(q)))
  }

  ghost function AcquireStep(s: State, p: Pid): (r: Option<State>)
    requires p in s.pc && (s.pc[p].WantLk? || s.pc[p].Test? || s.pc[p].Leave?)
    ensures r.Some? ==> OnlyMoved(s, r.value, p)
  {
    match s.pc[p]
    case WantLk(l) => if l in s.spin then None else Some(At(s, p, Test(l)).(spin := s.spin[l := p]))
    case Test(l) =>
      if l in s.locked then Some(At(s, p, WantTable(l)))
      else Some(Hold(At(s, p, Leave(l)), l, Holders(s, l) + {p}).(locked := s.locked + {l}, lkpid := s.lkpid[l := p]))
    case Leave(l) => Some(At(s, p, Idle).(spin := s.spin - {l}))
  }

  ghost function SleepStep(s: State, p: Pid): (r: Option<State>)
    requires p in s.pc && (s.pc[p].WantTable? || s.pc[p].DropLk? || s.pc[p].Enter? || s.pc[p].Asleep? || s.pc[p].Tidy?)
    ensures r.Some? ==> OnlyMoved(s, r.value, p)
  {
    match s.pc[p]
    case WantTable(l) => if s.table.Some? then None else Some(At(s, p, DropLk(l)).(table := Some(p)))
    case DropLk(l) => Some(At(s, p, Enter(l)).(spin := s.spin - {l}))
    case Enter(l) => Some(At(s, p, Asleep(l)).(table := None, woken := s.woken - {p}))
    case Asleep(l) => if s.table.Some? || p !in s.woken then None else Some(At(s, p, Tidy(l)).(table := Some(p)))
    case Tidy(l) => Some(At(s, p, WantLk(l)).(table := None))
  }

  ghost function ReleaseStep(s: State, p: Pid): (r: Option<State>)
    requires p in s.pc && (s.pc[p].WantRel? || s.pc[p].Clear? || s.pc[p].Done?)
    ensures r.Some? ==> OnlyMoved(s, r.value, p)
  {
    match s.pc[p]
    case WantRel(l) => if l in s.spin then None else Some(At(s, p, Clear(l)).(spin := s.spin[l := p]))
    case Clear(l) =>
      Some(Hold(At(s, p, WantWake(l)), l, Holders(s, l) - {p}).(locked := s.locked - {l}, lkpid := s.lkpid - {l}))
    case Done(l) => Some(At(s, p, Idle).(spin := s.spin - {l}))
  }

  ghost function WakeStep(s: State, p: Pid): (r: Option<State>)
    requires p in s.pc && (s.pc[p].WantWake? || s.pc[p].Wake? || s.pc[p].Woke?)
    ensures r.Some? ==> OnlyMoved(s, r.value, p)
  {
    match s.pc[p]
    case WantWake(l) => if s.table.Some? then None else Some(At(s, p, Wake(l)).(table := Some(p)))
    case Wake(l) => Some(At(s, p, Woke(l)).(woken := s.woken + Sleepers(s, l)))
    case Woke(l) => Some(At(s, p, Done(l)).(table := None))
  }

  ghost function KillStep(s: State, p: Pid): (r: Option<State>)
    requires p in s.pc && (s.pc[p].WantKill? || s.pc[p].Killing? || s.pc[p].KillDone?)
    ensures r.Some? ==> OnlyMoved(s, r.value, p)
  {
    match s.pc[p]
    case WantKill(q) => if s.table.Some? then None else Some(At(s, p, Killing(q)).(table := Some(p)))
    case Killing(q) => Some(At(s, p, KillDone).(woken := if q in s.pc && s.pc[q].Asleep? then s.woken + {q} else s.woken))
    case KillDone => Some(At(s, p, Idle).(table := None))
  }

  // ---- the invariant ----

  ghost predicate SpinOk(s: State) {
    && (forall p, l :: p in s.pc && HasLk(s.pc[p], l) ==> l in s.spin && s.spin[l] == p)
    && (forall l :: l in s.spin ==> s.spin[l] in s.pc && HasLk(s.pc[s.spin[l]], l))
    && (forall p :: p in s.pc && HasTable(s.pc[p]) ==> s.table == Some(p))
    && (s.table.Some? ==> s.table.value in s.pc && HasTable(s.pc[s.table.value]))
  }

  ghost predicate LockOk(s: State, l: Lock) {
    if l in s.locked then l in s.lkpid && Holders(s, l) == {s.lkpid[l]} else Holders(s, l) == {}
  }

  /** A lock is held by exactly the process its fields name. */
  ghost predicate HeldOk(s: State) {
    && (forall l :: LockOk(s, l))
    && (forall p :: p in s.pc && (s.pc[p].Leave? || s.pc[p].WantRel? || s.pc[p].Clear?) ==> p in Holders(s, s.pc[p].l))
  }

  /** The lock's releaser is between clearing it and waking its sleepers. */
  ghost predicate Waking(s: State, l: Lock) {
    l in s.spin && s.spin[l] in s.pc && (s.pc[s.spin[l]] == WantWake(l) || s.pc[s.spin[l]] == Wake(l))
  }

  /** A process asleep on a lock, or on its way there, is not forgotten. */
  ghost predicate NotLost(s: State, p: Pid)
    requires p in s.pc
  {
    match s.pc[p]
    case WantTable(l) => l in s.locked
    case DropLk(l) => l in s.locked
    case Enter(l) => l in s.locked || Waking(s, l)
    case Asleep(l) => p in s.woken || l in s.locked || Waking(s, l)
    case _ => true
  }

  /** p has cleared lock l and not yet left releasesleep. */
  predicate HasCleared(pc: Pc, l: Lock) {
    pc == WantWake(l) || pc == Wake(l) || pc == Woke(l) || pc == Done(l)
  }

  /** Such a lock stays free until then. */
  ghost predicate AllFreed(s: State) {
    forall p, l :: p in s.pc && HasCleared(s.pc[p], l) ==> l !in s.locked
  }

  ghost predicate Inv(s: State) {
    SpinOk(s) && HeldOk(s) && AllFreed(s) && forall p :: p in s.pc ==> NotLost(s, p)
  }

  /** Only p moved, and spin locks changed hands only to or from p. */
  ghost predicate OnlyMine(s: State, s': State, p: Pid) {
    && p in s'.pc && s'.pc == s.pc[p := s'.pc[p]]
    && (forall l :: HasLk(s'.pc[p], l) <==> l in s'.spin && s'.spin[l] == p)
    && (forall l :: l in s.spin && s.spin[l] != p ==> l in s'.spin && s'.spin[l] == s.spin[l])
    && (forall l :: l in s'.spin && s'.spin[l] != p ==> l in s.spin && s'.spin[l] == s.spin[l])
    && (HasTable(s'.pc[p]) <==> s'.table == Some(p))
    && (s.table != Some(p) && s.table.Some? ==> s'.table == s.table)
    && (s'.table != Some(p) && s'.table.Some? ==> s'.table == s.table)
  }

  lemma SpinKept(s: State, s': State, p: Pid)
    requires SpinOk(s) && p in s.pc && OnlyMine(s, s', p)
    ensures SpinOk(s')
  {
  }

  /** Only who has a lock's spin lock sets it. */
  lemma FreedKept(s: State, s': State, p: Pid)
    requires SpinOk(s) && AllFreed(s) && p in s.pc && p in s'.pc && s'.pc == s.pc[p := s'.pc[p]]
    requires forall l :: l in s'.locked && l !in s.locked ==> HasLk(s.pc[p], l)
    requires forall l :: HasCleared(s'.pc[p], l) ==> l !in s'.locked
    ensures AllFreed(s')
  {
    forall q, l | q in s'.pc && HasCleared(s'.pc[q], l) ensures l !in s'.locked {
      if q != p {
        assert HasLk(s.pc[q], l) && HasCleared(s.pc[q], l);
        assert s.spin[l] == q;
      }
    }
  }

  lemma FreedThere(s: State, p: Pid)
    requires AllFreed(s) && p in s.pc
    ensures forall l :: HasCleared(s.pc[p], l) ==> l !in s.locked
  {
  }

  /** Sleep locks did not change hands. */
  lemma HeldKept(s: State, s': State, p: Pid)
    requires HeldOk(s) && p in s.pc && p in s'.pc && s'.pc == s.pc[p := s'.pc[p]]
    requires s'.held == s.held && s'.locked == s.locked && s'.lkpid == s.lkpid
    requires s'.pc[p].Leave? || s'.pc[p].WantRel? || s'.pc[p].Clear? ==> p in Holders(s, s'.pc[p].l)
    ensures HeldOk(s')
  {
    forall l ensures LockOk(s', l) {
      assert LockOk(s, l);
    }
    forall q | q in s'.pc && (s'.pc[q].Leave? || s'.pc[q].WantRel? || s'.pc[q].Clear?) ensures q in Holders(s', s'.pc[q].l) {
      assert q != p ==> q in Holders(s, s.pc[q].l);
    }
  }

  /** A free lock goes to p alone. */
  lemma HeldTaken(s: State, s': State, p: Pid, l: Lock)
    requires HeldOk(s) && p in s.pc && l !in s.locked && s'.pc == s.pc[p := Leave(l)]
    requires s'.held == s.held[l := Holders(s, l) + {p}] && s'.locked == s.locked + {l} && s'.lkpid == s.lkpid[l := p]
    ensures HeldOk(s')
  {
    forall k ensures LockOk(s', k) {
      assert LockOk(s, k);
    }
    forall q | q in s'.pc && (s'.pc[q].Leave? || s'.pc[q].WantRel? || s'.pc[q].Clear?) ensures q in Holders(s', s'.pc[q].l) {
      assert q != p ==> q in Holders(s, s.pc[q].l);
    }
  }

  /** p gives up a lock that nobody else can hold. */
  lemma HeldCleared(s: State, s': State, p: Pid, l: Lock)
    requires HeldOk(s) && p in s.pc && p in Holders(s, l) && s'.pc == s.pc[p := WantWake(l)]
    requires s'.held == s.held[l := Holders(s, l) - {p}] && s'.locked == s.locked - {l} && s'.lkpid == s.lkpid - {l}
    ensures HeldOk(s')
  {
    forall k ensures LockOk(s', k) {
      assert LockOk(s, k);
    }
    forall q | q in s'.pc && (s'.pc[q].Leave? || s'.pc[q].WantRel? || s'.pc[q].Clear?) ensures q in Holders(s', s'.pc[q].l) {
      assert q != p ==> q in Holders(s, s.pc[q].l);
    }
  }

  lemma HolderThere(s: State, p: Pid)
    requires HeldOk(s) && p in s.pc
    ensures s.pc[p].Leave? || s.pc[p].WantRel? || s.pc[p].Clear? ==> p in Holders(s, s.pc[p].l)
  {
  }

  /** An idle process sets out, holding no spin lock yet. */
  lemma SetOut(s: State, p: Pid, pc: Pc)
    requires Inv(s) && p in s.pc && s.pc[p].Idle? && (pc.WantLk? || pc.WantRel? || pc.WantKill?)
    requires pc.WantRel? ==> p in Holders(s, pc.l)
    ensures Inv(At(s, p, pc))
  {
    hide HeldOk, AllFreed;
    var s' := At(s, p, pc);
    SpinKept(s, s', p);
    HeldKept(s, s', p);
    FreedKept(s, s', p);
    forall q | q in s'.pc ensures NotLost(s', q) {
      assert NotLost(s, q);
    }
  }

  lemma BeginKeepsInv(s: State, p: Pid, c: Choice)
    requires Inv(s) && p in s.pc && s.pc[p].Idle? && BeginStep(s, p, c).Some?
    ensures Inv(BeginStep(s, p, c).value)
  {
    hide Inv;
    match c
    case Acquire(l) => SetOut(s, p, WantLk(l));
    case Release(l) => SetOut(s, p, WantRel(l));
    case Kill(q) => SetOut(s, p, WantKill(q));
  }

  lemma AcquireKeepsLocks(s: State, p: Pid)
    requires Inv(s) && p in s.pc && (s.pc[p].WantLk? || s.pc[p].Test? || s.pc[p].Leave?) && AcquireStep(s, p).Some?
    ensures SpinOk(AcquireStep(s, p).value) && HeldOk(AcquireStep(s, p).value)
  {
    hide HeldOk;
    var s' := AcquireStep(s, p).value;
    SpinKept(s, s', p);
    if s.pc[p].Test? && s.pc[p].l !in s.locked {
      HeldTaken(s, s', p, s.pc[p].l);
    } else {
      HeldKept(s, s', p);
    }
  }

  lemma AcquireKeepsInv(s: State, p: Pid)
    requires Inv(s) && p in s.pc && (s.pc[p].WantLk? || s.pc[p].Test? || s.pc[p].Leave?) && AcquireStep(s, p).Some?
    ensures Inv(AcquireStep(s, p).value)
  {
    hide HeldOk, AllFreed;
    var s' := AcquireStep(s, p).value;
    AcquireKeepsLocks(s, p);
    FreedKept(s, s', p);
    forall q | q in s'.pc ensures NotLost(s', q) {
      assert NotLost(s, q);
    }
  }

  lemma SleepKeepsInv(s: State, p: Pid)
    requires Inv(s) && p in s.pc
    requires s.pc[p].WantTable? || s.pc[p].DropLk? || s.pc[p].Enter? || s.pc[p].Asleep? || s.pc[p].Tidy?
    requires SleepStep(s, p).Some?
    ensures Inv(SleepStep(s, p).value)
  {
    hide HeldOk, AllFreed;
    var s' := SleepStep(s, p).value;
    SpinKept(s, s', p);
    HeldKept(s, s', p);
    FreedKept(s, s', p);
    forall q | q in s'.pc ensures NotLost(s', q) {
      assert NotLost(s, q);
    }
  }

  lemma ReleaseKeepsLocks(s: State, p: Pid)
    requires Inv(s) && p in s.pc && (s.pc[p].WantRel? || s.pc[p].Clear? || s.pc[p].Done?) && ReleaseStep(s, p).Some?
    ensures SpinOk(ReleaseStep(s, p).value) && HeldOk(ReleaseStep(s, p).value)
  {
    hide HeldOk;
    var s' := ReleaseStep(s, p).value;
    HolderThere(s, p);
    SpinKept(s, s', p);
    if s.pc[p].Clear? {
      HeldCleared(s, s', p, s.pc[p].l);
    } else {
      HeldKept(s, s', p);
    }
  }

  lemma ReleaseKeepsInv(s: State, p: Pid)
    requires Inv(s) && p in s.pc && (s.pc[p].WantRel? || s.pc[p].Clear? || s.pc[p].Done?) && ReleaseStep(s, p).Some?
    ensures Inv(ReleaseStep(s, p).value)
  {
    hide HeldOk, AllFreed;
    var s' := ReleaseStep(s, p).value;
    ReleaseKeepsLocks(s, p);
    var l := s.pc[p].l;
    assert HasLk(s.pc[p], l) || l !in s.spin;
    FreedKept(s, s', p);
    forall q | q in s'.pc ensures NotLost(s', q) {
      assert NotLost(s, q);
      assert s.pc[q].WantTable? || s.pc[q].DropLk? ==> HasLk(s.pc[q], s.pc[q].l);
      assert s.pc[p].Clear? ==> Waking(s', l);
    }
  }

  lemma WakeKeepsInv(s: State, p: Pid)
    requires Inv(s) && p in s.pc && (s.pc[p].WantWake? || s.pc[p].Wake? || s.pc[p].Woke?) && WakeStep(s, p).Some?
    ensures Inv(WakeStep(s, p).value)
  {
    hide HeldOk, AllFreed;
    var s' := WakeStep(s, p).value;
    SpinKept(s, s', p);
    HeldKept(s, s', p);
    FreedThere(s, p);
    FreedKept(s, s', p);
    forall q | q in s'.pc ensures NotLost(s', q) {
      assert NotLost(s, q);
    }
  }

  lemma KillKeepsInv(s: State, p: Pid)
    requires Inv(s) && p in s.pc && (s.pc[p].WantKill? || s.pc[p].Killing? || s.pc[p].KillDone?) && KillStep(s, p).Some?
    ensures Inv(KillStep(s, p).value)
  {
    hide HeldOk, AllFreed;
    var s' := KillStep(s, p).value;
    SpinKept(s, s', p);
    HeldKept(s, s', p);
    FreedKept(s, s', p);
    forall q | q in s'.pc ensures NotLost(s', q) {
      assert NotLost(s, q);
    }
  }

  // ---- whole runs ----

  lemma StepKeepsInv(s: State, p: Pid, c: Choice)
    requires Inv(s) && p in s.pc && Step(s, p, c).Some?
    ensures Inv(Step(s, p, c).value) && Step(s, p, c).value.pc.Keys == s.pc.Keys
  {
    hide Inv;
    match s.pc[p]
    case Idle => BeginKeepsInv(s, p, c);
    case WantLk(_) => AcquireKeepsInv(s, p);
    case Test(_) => AcquireKeepsInv(s, p);
    case Leave(_) => AcquireKeepsInv(s, p);
    case WantTable(_) => SleepKeepsInv(s, p);
    case DropLk(_) => SleepKeepsInv(s, p);
    case Enter(_) => SleepKeepsInv(s, p);
    case Asleep(_) => SleepKeepsInv(s, p);
    case Tidy(_) => SleepKeepsInv(s, p);
    case WantRel(_) => ReleaseKeepsInv(s, p);
    case Clear(_) => ReleaseKeepsInv(s, p);
    case Done(_) => ReleaseKeepsInv(s, p);
    case WantWake(_) => WakeKeepsInv(s, p);
    case Wake(_) => WakeKeepsInv(s, p);
    case Woke(_) => WakeKeepsInv(s, p);
    case _ => KillKeepsInv(s, p);
  }

  /** Every process idle, every lock free. */
  ghost function Start(ps: set<Pid>): State {
    State(map p | p in ps :: Idle, {}, map[], None, {}, map[], map[])
  }

  lemma StartInv(ps: set<Pid>)
    ensures Inv(Start(ps))
  {
  }

  /** A move that cannot be made, or by nobody, leaves the state as it is. */
  ghost function After(s: State, moves: seq<(Pid, Choice)>): State
    decreases |moves|
  {
    if moves == [] then s
    else
      var s1 := After(s, moves[..|moves| - 1]);
      var (p, c) := moves[|moves| - 1];
      if p in s1.pc && Step(s1, p, c).Some? then Step(s1, p, c).value else s1
  }

  lemma {:induction false} RunKeepsInv(s: State, moves: seq<(Pid, Choice)>)
    requires Inv(s)
    ensures Inv(After(s, moves))
    decreases |moves|
  {
    if moves != [] {
      RunKeepsInv(s, moves[..|moves| - 1]);
      var s1 := After(s, moves[..|moves| - 1]);
      var (p, c) := moves[|moves| - 1];
      if p in s1.pc && Step(s1, p, c).Some? {
        StepKeepsInv(s1, p, c);
      }
    }
  }

  predicate InAcquire(pc: Pc, l: Lock) {
    match pc
    case WantLk(k) => k == l
    case Test(k) => k == l
    case WantTable(k) => k == l
    case DropLk(k) => k == l
    case Enter(k) => k == l
    case Asleep(k) => k == l
    case Tidy(k) => k == l
    case Leave(k) => k == l
    case _ => false
  }

  predicate InRelease(pc: Pc, l: Lock) {
    match pc
    case WantRel(k) => k == l
    case Clear(k) => k == l
    case WantWake(k) => k == l
    case Wake(k) => k == l
    case Woke(k) => k == l
    case Done(k) => k == l
    case _ => false
  }

  predicate InKill(pc: Pc) {
    pc.WantKill? || pc.Killing? || pc.KillDone?
  }

  /** The last move of a run is q's, if it can make it. */
  ghost predicate Moves(s: State, s': State, q: Pid, c: Choice) {
    if q in s.pc && Step(s, q, c).Some? then s' == Step(s, q, c).value else s' == s
  }

  lemma LastMove(s: State, moves: seq<(Pid, Choice)>, q: Pid, c: Choice)
    ensures Moves(After(s, moves), After(s, moves + [(q, c)]), q, c)
  {
    var all := moves + [(q, c)];
    assert all[..|all| - 1] == moves;
  }

  lemma OthersStay(s: State, s': State, q: Pid, c: Choice, p: Pid)
    requires Moves(s, s', q, c) && p in s.pc && p != q
    ensures p in s'.pc && s'.pc[p] == s.pc[p]
  {
    hide Step;
  }

  lemma AcquireEnds(s: State, p: Pid, c: Choice, l: Lock)
    requires p in s.pc && InAcquire(s.pc[p], l) && Step(s, p, c).Some?
    requires LockOk(s, l) && (s.pc[p].Leave? ==> p in Holders(s, l))
    ensures var s' := Step(s, p, c).value;
      && p in s'.pc && (InAcquire(s'.pc[p], l) || s'.pc[p].Idle?)
      && (s'.pc[p].Idle? ==> p in Holders(s', l) && l in s'.locked && l in s'.lkpid && s'.lkpid[l] == p)
  {
  }

  lemma ReleaseEnds(s: State, p: Pid, c: Choice, l: Lock)
    requires p in s.pc && InRelease(s.pc[p], l) && Step(s, p, c).Some?
    requires LockOk(s, l) && (HasCleared(s.pc[p], l) ==> l !in s.locked)
    ensures var s' := Step(s, p, c).value;
      && p in s'.pc && (InRelease(s'.pc[p], l) || s'.pc[p].Idle?)
      && (s'.pc[p].Idle? ==> p !in Holders(s', l))
  {
  }

  /** A RETURN FROM ACQUIRESLEEP MEANS THE LOCK. In every run, whoever moves: a process inside acquiresleep(l) is still
      inside after the move, or has returned and holds l, as the lock's own fields say too. */
  lemma AcquireReturns(ps: set<Pid>, moves: seq<(Pid, Choice)>, q: Pid, c: Choice, p: Pid, l: Lock)
    requires var s := After(Start(ps), moves); p in s.pc && InAcquire(s.pc[p], l)
    ensures var s' := After(Start(ps), moves + [(q, c)]);
      && p in s'.pc && (InAcquire(s'.pc[p], l) || s'.pc[p].Idle?)
      && (s'.pc[p].Idle? ==> p in Holders(s', l) && l in s'.locked && l in s'.lkpid && s'.lkpid[l] == p)
  {
    hide After, Step, Start;
    var s, s' := After(Start(ps), moves), After(Start(ps), moves + [(q, c)]);
    StartInv(ps);
    RunKeepsInv(Start(ps), moves);
    LastMove(Start(ps), moves, q, c);
    if p != q {
      OthersStay(s, s', q, c, p);
    } else if Step(s, p, c).Some? {
      AcquireEnds(s, p, c, l);
    }
  }

  /** And a return from releasesleep(l) means not having it. */
  lemma ReleaseReturns(ps: set<Pid>, moves: seq<(Pid, Choice)>, q: Pid, c: Choice, p: Pid, l: Lock)
    requires var s := After(Start(ps), moves); p in s.pc && InRelease(s.pc[p], l)
    ensures var s' := After(Start(ps), moves + [(q, c)]);
      && p in s'.pc && (InRelease(s'.pc[p], l) || s'.pc[p].Idle?)
      && (s'.pc[p].Idle? ==> p !in Holders(s', l))
  {
    hide After, Step, Start;
    var s, s' := After(Start(ps), moves), After(Start(ps), moves + [(q, c)]);
    StartInv(ps);
    RunKeepsInv(Start(ps), moves);
    LastMove(Start(ps), moves, q, c);
    if p != q {
      OthersStay(s, s', q, c, p);
    } else if Step(s, p, c).Some? {
      ReleaseEnds(s, p, c, l);
    }
  }

  /** Who wakes whom: a sleeper is woken by releasesleep of the lock it sleeps on or by a kill of it, and in no other
      way; and each of these does wake it. */
  lemma WokenExactly(s: State, q: Pid, c: Choice, p: Pid)
    requires p in s.pc && q in s.pc && Step(s, q, c).Some? && s.pc[p].Asleep? && p !in s.woken
    ensures p in Step(s, q, c).value.woken <==> s.pc[q] == Wake(s.pc[p].l) || s.pc[q] == Killing(p)
  {
  }

  /** No deadlock: in every run, if some process is neither idle nor asleep and unwoken, then a process inside one of its
      calls can move. */
  lemma NoDeadlock(ps: set<Pid>, moves: seq<(Pid, Choice)>, p: Pid, c: Choice)
    requires var s := After(Start(ps), moves); p in s.pc && !s.pc[p].Idle? && !(s.pc[p].Asleep? && p !in s.woken)
    ensures var s := After(Start(ps), moves); exists q :: q in s.pc && !s.pc[q].Idle? && Step(s, q, c).Some?
  {
    var s := After(Start(ps), moves);
    hide After, Start, Inv, HeldOk;
    StartInv(ps);
    RunKeepsInv(Start(ps), moves);
    InvSpin(s);
    var q := if s.table.Some? then s.table.value
      else if (s.pc[p].WantLk? || s.pc[p].WantRel?) && s.pc[p].l in s.spin then s.spin[s.pc[p].l] else p;
    assert q in s.pc && !s.pc[q].Idle? && Step(s, q, c).Some?;
  }

  lemma InvSpin(s: State)
    requires Inv(s)
    ensures SpinOk(s)
  {
  }

  /** n moves of one process. */
  ghost function Alone(s: State, p: Pid, c: Choice, n: nat): State {
    After(s, seq(n, _ => (p, c)))
  }

  lemma AloneStep(s: State, p: Pid, c: Choice, n: nat)
    requires n > 0
    ensures Alone(s, p, c, 0) == s && Moves(Alone(s, p, c, n - 1), Alone(s, p, c, n), p, c)
  {
    assert seq(n, _ => (p, c)) == seq(n - 1, _ => (p, c)) + [(p, c)];
    LastMove(s, seq(n - 1, _ => (p, c)), p, c);
  }

  lemma {:induction false} AloneSplit(s: State, p: Pid, c: Choice, m: nat, n: nat)
    ensures Alone(s, p, c, m + n) == Alone(Alone(s, p, c, m), p, c, n)
  {
    hide Step;
    var t := Alone(s, p, c, m);
    if n == 0 {
      AloneStep(t, p, c, 1);
    } else {
      AloneSplit(s, p, c, m, n - 1);
      AloneStep(s, p, c, m + n);
      AloneStep(t, p, c, n);
    }
  }

  lemma ToTest(s: State, p: Pid, l: Lock)
    requires p in s.pc && s.pc[p].Idle? && l !in s.spin
    ensures Alone(s, p, Acquire(l), 2) == s.(pc := s.pc[p := Test(l)], spin := s.spin[l := p])
  {
    hide Alone;
    AloneStep(s, p, Acquire(l), 1);
    AloneStep(s, p, Acquire(l), 2);
  }

  /** A free lock that nobody is busy with is taken in four moves of one process. */
  lemma Taken(s: State, p: Pid, l: Lock)
    requires p in s.pc && s.pc[p].Idle? && l !in s.locked && l !in s.spin && Holders(s, l) == {}
    ensures var s' := Alone(s, p, Acquire(l), 4);
      && s'.pc == s.pc && Holders(s', l) == {p} && s'.locked == s.locked + {l} && l in s'.lkpid && s'.lkpid[l] == p
      && s'.spin == s.spin && s'.table == s.table && s'.woken == s.woken
      && forall k :: k != l ==> Holders(s', k) == Holders(s, k)
  {
    hide Alone;
    ToTest(s, p, l);
    AloneSplit(s, p, Acquire(l), 2, 2);
    var t := Alone(s, p, Acquire(l), 2);
    AloneStep(t, p, Acquire(l), 1);
    AloneStep(t, p, Acquire(l), 2);
  }

  lemma ToClear(s: State, p: Pid, l: Lock)
    requires p in s.pc && s.pc[p].Idle? && l !in s.spin && Holders(s, l) == {p}
    ensures Alone(s, p, Release(l), 3) == s.(pc := s.pc[p := WantWake(l)], spin := s.spin[l := p], held := s.held[l := {}],
                                             locked := s.locked - {l}, lkpid := s.lkpid - {l})
  {
    hide Alone;
    AloneStep(s, p, Release(l), 1);
    AloneStep(s, p, Release(l), 2);
    AloneStep(s, p, Release(l), 3);
    assert {p} - {p} == {};
  }

  lemma ToDone(s: State, p: Pid, l: Lock)
    requires p in s.pc && s.pc[p] == WantWake(l) && s.table.None?
    ensures Alone(s, p, Release(l), 3) == s.(pc := s.pc[p := Done(l)], woken := s.woken + Sleepers(s, l))
  {
    hide Alone;
    var s1 := s.(pc := s.pc[p := Wake(l)], table := Some(p));
    var s2 := s1.(pc := s.pc[p := Woke(l)], woken := s.woken + Sleepers(s, l));
    AloneStep(s, p, Release(l), 1);
    assert Alone(s, p, Release(l), 1) == s1 && Sleepers(s1, l) == Sleepers(s, l);
    AloneStep(s, p, Release(l), 2);
    assert Alone(s, p, Release(l), 2) == s2;
    AloneStep(s, p, Release(l), 3);
  }

  /** And given back in seven, which wake exactly the lock's sleepers. */
  lemma GivenBack(s: State, p: Pid, l: Lock)
    requires p in s.pc && s.pc[p].Idle? && l !in s.spin && s.table.None? && Holders(s, l) == {p}
    ensures var s' := Alone(s, p, Release(l), 7);
      && s'.pc == s.pc && Holders(s', l) == {} && s'.locked == s.locked - {l} && s'.spin == s.spin && s'.table.None?
      && s'.woken == s.woken + Sleepers(s, l)
      && forall k :: k != l ==> Holders(s', k) == Holders(s, k)
  {
    hide Alone;
    ToClear(s, p, l);
    var t := Alone(s, p, Release(l), 3);
    ToDone(t, p, l);
    assert Sleepers(t, l) == Sleepers(s, l);
    AloneSplit(t, p, Release(l), 3, 1);
    AloneSplit(s, p, Release(l), 3, 4);
    AloneStep(Alone(t, p, Release(l), 3), p, Release(l), 1);
  }

  /** Mutual exclusion: in every run of any processes, at most one holds a sleep lock, and holdingsleep is right. */
  lemma MutualExclusion(ps: set<Pid>, moves: seq<(Pid, Choice)>, l: Lock)
    ensures var s := After(Start(ps), moves);
      && (forall p, q :: p in Holders(s, l) && q in Holders(s, l) ==> p == q)
      && (forall p :: l in s.locked && l in s.lkpid && s.lkpid[l] == p <==> p in Holders(s, l))
  {
    RunKeepsInv(Start(ps), moves);
    assert LockOk(After(Start(ps), moves), l);
  }

  /** No lost wakeup: in every run, a process that sleeps on a lock and is not yet woken sleeps on a lock that is held,
      or whose releaser is between clearing it and calling wakeup1. */
  lemma NoLostWakeup(ps: set<Pid>, moves: seq<(Pid, Choice)>, p: Pid, l: Lock)
    requires var s := After(Start(ps), moves); p in s.pc && s.pc[p] == Asleep(l) && p !in s.woken
    ensures var s := After(Start(ps), moves); l in s.locked || Waking(s, l)
  {
    RunKeepsInv(Start(ps), moves);
    assert NotLost(After(Start(ps), moves), p);
  }

  /** That releaser wakes the sleeper in its next two steps, ptable.lock permitting. */
  lemma WakeupArrives(s: State, p: Pid, l: Lock, c: Choice)
    requires Inv(s) && p in s.pc && s.pc[p] == Asleep(l) && p !in s.woken && l !in s.locked && s.table.None?
    ensures l in s.spin && s.spin[l] in s.pc
    ensures var q := s.spin[l]; var s1 := Step(s, q, c);
      s1.Some? && q in s1.value.pc && Step(s1.value, q, c).Some? && p in Step(s1.value, q, c).value.woken
  {
    assert NotLost(s, p);
  }
}
