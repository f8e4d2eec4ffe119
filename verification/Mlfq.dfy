/** The MLFQ scheduler (proc.c): K queues, the i-th with a quantum of 2i + 4 runs, one CPU, 2 <= K <= 5. While a
    process runs it may change the process table; that is a parameter here. */
module Mlfq {
  import opened Blocks
  import opened ProcessTable

  datatype Task = Task(state: RunState, level: nat, hold: nat, priority: int)

  function Quantum(level: nat): nat {
    2 * level + 4
  }

  // ---- what has happened ----

  /** A slot was dispatched at a level and, when it came back, charged for the run at the level it then had; or its
      level and hold were reset, by sleep, yield2 or allocation; or everybody's were, by a boost. */
  datatype Event = Ran(slot: nat, at: nat, charged: nat) | Reset(slot: nat) | Boosted

  ghost predicate Resets(e: Event, i: nat) {
    e.Boosted? || e == Reset(i)
  }

  /** How often slot i has been charged at level j since its last reset. */
  ghost function RunsAt(h: seq<Event>, i: nat, j: nat): nat {
    if h == [] || Resets(h[|h| - 1], i) then 0
    else
      var e := h[|h| - 1];
      RunsAt(h[..|h| - 1], i, j) + if e.Ran? && e.slot == i && e.charged == j then 1 else 0
  }

  lemma RunsAfter(h: seq<Event>, e: Event, i: nat, j: nat)
    ensures RunsAt(h + [e], i, j) ==
            if Resets(e, i) then 0 else RunsAt(h, i, j) + if e.Ran? && e.slot == i && e.charged == j then 1 else 0
  {
    assert (h + [e])[..|h|] == h;
  }

  /** What the account of a live process says: the quanta of the levels it has left, what it has used of this one,
      and nothing below. */
  ghost function Expected(t: Task, j: nat): int {
    if j < t.level then Quantum(j) else if j == t.level then Quantum(j) - t.hold else 0
  }

  ghost predicate InBounds(t: Task, k: nat) {
    t.level < k && t.hold <= Quantum(t.level)
  }

  /** No quantum is ever exceeded, and a live process has used exactly what its level and hold say. */
  ghost predicate Account(h: seq<Event>, t: Task, i: nat, k: nat) {
    && InBounds(t, k)
    && (forall j :: 0 <= j < k ==> RunsAt(h, i, j) <= Quantum(j))
    && (!t.state.Unused? ==> forall j :: 0 <= j < k ==> RunsAt(h, i, j) == Expected(t, j))
  }

  ghost predicate Accounts(h: seq<Event>, ts: seq<Task>, k: nat) {
    forall i :: 0 <= i < |ts| ==> Account(h, ts[i], i, k)
  }

  lemma AccountReset(h: seq<Event>, e: Event, t: Task, i: nat, k: nat)
    requires Resets(e, i) && Fresh(t) && k > 0
    ensures Account(h + [e], t, i, k)
  {
    forall j | 0 <= j < k ensures RunsAt(h + [e], i, j) == 0 {
      RunsAfter(h, e, i, j);
    }
  }

  lemma AccountOther(h: seq<Event>, e: Event, t: Task, i: nat, k: nat)
    requires Account(h, t, i, k) && !Resets(e, i) && (e.Ran? ==> e.slot != i)
    ensures Account(h + [e], t, i, k)
  {
    forall j | 0 <= j < k ensures RunsAt(h + [e], i, j) == RunsAt(h, i, j) {
      RunsAfter(h, e, i, j);
    }
  }

  lemma AccountRun(h: seq<Event>, at: nat, t: Task, i: nat, k: nat)
    requires Account(h, t, i, k) && !t.state.Unused? && t.hold > 0
    ensures Account(h + [Ran(i, at, t.level)], t.(hold := t.hold - 1), i, k)
  {
    forall j | 0 <= j < k ensures RunsAt(h + [Ran(i, at, t.level)], i, j) == RunsAt(h, i, j) + if j == t.level then 1 else 0 {
      RunsAfter(h, Ran(i, at, t.level), i, j);
    }
  }

  /** The states of a task do not matter to its account, as long as it stays live. */
  lemma AccountSame(h: seq<Event>, t: Task, t': Task, i: nat, k: nat)
    requires Account(h, t, i, k) && SameQuantum(t, t') && (t.state.Unused? ==> t'.state.Unused?)
    ensures Account(h, t', i, k)
  {
  }

  lemma AccountBounds(h: seq<Event>, t: Task, i: nat, k: nat)
    requires Account(h, t, i, k)
    ensures InBounds(t, k)
  {
  }

  // ---- conservation ----

  /** All runs charged since the last reset. */
  ghost function AllRuns(h: seq<Event>, i: nat, k: nat): nat {
    if k == 0 then 0 else AllRuns(h, i, k - 1) + RunsAt(h, i, k - 1)
  }

  /** The quanta of the queues below `level`. */
  ghost function Below(k: nat, level: nat): nat
    decreases k - level
  {
    if level + 1 >= k then 0 else Quantum(level + 1) + Below(k, level + 1)
  }

  lemma {:induction false} BelowSum(k: nat, level: nat)
    requires level < k
    ensures Below(k, level) == k * k + 3 * k - (level + 1) * (level + 4)
    decreases k - level
  {
    if level + 1 < k {
      BelowSum(k, level + 1);
      assert (level + 2) * (level + 5) == (level + 1) * (level + 4) + Quantum(level + 1);
    } else {
      assert k * k + 3 * k == (level + 1) * (level + 4);
    }
  }

  lemma {:induction false} RunsSum(h: seq<Event>, t: Task, i: nat, k: nat, n: nat)
    requires Account(h, t, i, k) && !t.state.Unused? && n <= k
    ensures AllRuns(h, i, n) == if n <= t.level then n * (n + 3) else (t.level + 1) * (t.level + 4) - t.hold
    decreases n
  {
    if n > 0 {
      RunsSum(h, t, i, k, n - 1);
      assert RunsAt(h, i, n - 1) == Expected(t, n - 1);
      assert n * (n + 3) == (n - 1) * (n + 2) + Quantum(n - 1);
    }
  }

  /** QUANTUM CONSERVATION: runs since the last reset, runs left at this level and the quanta below add up. */
  lemma QuantumConserved(h: seq<Event>, t: Task, i: nat, k: nat)
    requires Account(h, t, i, k) && !t.state.Unused?
    ensures AllRuns(h, i, k) + t.hold + Below(k, t.level) == k * k + 3 * k
  {
    RunsSum(h, t, i, k, k);
    BelowSum(k, t.level);
  }

  /** Nothing in the history from position m on gives slot i a new start. */
  ghost predicate NoReset(h: seq<Event>, m: nat, i: nat) {
    forall n :: m <= n < |h| ==> !Resets(h[n], i)
  }

  lemma {:induction false} RunsGrow(h: seq<Event>, m: nat, n: nat, i: nat, j: nat)
    requires m <= n <= |h| && NoReset(h, m, i)
    ensures RunsAt(h[..n], i, j) >= RunsAt(h[..m], i, j)
    ensures forall x :: m <= x < n && h[x].Ran? && h[x].slot == i && h[x].charged == j ==> RunsAt(h[..n], i, j) > RunsAt(h[..m], i, j)
    decreases n - m
  {
    if m < n {
      RunsGrow(h, m, n - 1, i, j);
      assert h[..n] == h[..n - 1] + [h[n - 1]];
      RunsAfter(h[..n - 1], h[n - 1], i, j);
    }
  }

  /** Between two moments without a reset, a process is charged at level j only for what it had left there; one that
      stood at the last level with nothing left is not dispatched at all. */
  lemma ExhaustedIsNotDispatched(h: seq<Event>, m: nat, i: nat, t: Task, t': Task, k: nat, x: nat)
    requires m <= x < |h| && NoReset(h, m, i) && Account(h[..m], t, i, k) && Account(h, t', i, k) && Sane(h, k)
    requires !t.state.Unused? && t.level == k - 1 && t.hold == 0 && h[x].Ran?
    ensures h[x].slot != i
  {
    var j := h[x].charged;
    RunsGrow(h, m, |h|, i, j);
    assert h[..|h|] == h;
    assert RunsAt(h[..m], i, j) == Expected(t, j) == Quantum(j);
    assert RunsAt(h, i, j) <= Quantum(j);
  }

  ghost predicate Sane(h: seq<Event>, k: nat) {
    forall n :: 0 <= n < |h| && h[n].Ran? ==> h[n].slot < NPROC && h[n].at < k && h[n].charged < k
  }

  // ---- the table ----

  predicate Eligible(t: Task, level: nat) {
    t.state.Runnable? && t.level == level && t.hold > 0
  }

  /** Some level below k has a process to run. */
  ghost predicate AnyEligible(ts: seq<Task>, k: nat) {
    exists i :: 0 <= i < |ts| && ts[i].level < k && Eligible(ts[i], ts[i].level)
  }

  predicate SameQuantum(t: Task, t': Task) {
    t'.level == t.level && t'.hold == t.hold
  }

  predicate Fresh(t: Task) {
    t.level == 0 && t.hold == 4
  }

  /** The slot goes on as it was. */
  predicate GoesOn(t: Task, t': Task) {
    SameQuantum(t, t') && (t.state.Unused? ==> t'.state.Unused?)
  }

  /** What may happen to the table while p runs: p stops running and may have called yield2; a slot that is unused, or
      whose zombie p reaps, may be filled; priorities change, and states, but whoever is runnable stays so. */
  ghost predicate Interlude(ts: seq<Task>, ts': seq<Task>, p: nat) {
    && |ts'| == |ts| && p < |ts| && !ts'[p].state.Running? && !ts'[p].state.Unused?
    && (forall q :: 0 <= q < |ts| ==>
          GoesOn(ts[q], ts'[q]) || ((q == p || ts[q].state.Unused? || ts[q].state.Zombie?) && Fresh(ts'[q])))
    && forall q :: 0 <= q < |ts| && q != p && ts[q].state.Runnable? ==> ts'[q].state.Runnable?
  }

  /** Without yield2 and new processes. */
  ghost predicate Quiet(ts: seq<Task>, ts': seq<Task>, p: nat) {
    && |ts'| == |ts| && p < |ts| && !ts'[p].state.Running? && !ts'[p].state.Unused?
    && forall q :: 0 <= q < |ts| ==> GoesOn(ts[q], ts'[q])
  }

  /** What the process in slot q makes of the table at moment n. */
  type Behaviour = (nat, seq<Task>, nat) -> seq<Task>

  ghost predicate Possible(run: Behaviour) {
    forall n: nat, ts: seq<Task>, q: nat :: q < |ts| && !ts[q].state.Unused? ==> Interlude(ts, run(n, ts, q), q)
  }

  ghost predicate AlwaysQuiet(run: Behaviour) {
    forall n: nat, ts: seq<Task>, q: nat :: q < |ts| && !ts[q].state.Unused? ==> Quiet(ts, run(n, ts, q), q)
  }

  function Started(ts: seq<Task>, p: nat): seq<Task>
    requires p < |ts|
  {
    ts[p := ts[p].(state := Running)]
  }

  /** The table with one run charged to p. */
  function Charged(ts: seq<Task>, p: nat): seq<Task>
    requires p < |ts|
  {
    ts[p := ts[p].(hold := if ts[p].hold > 0 then ts[p].hold - 1 else 0)]
  }

  /** The resets that a change of the first n slots amounts to. */
  ghost function NewStarts(ts: seq<Task>, ts': seq<Task>, n: nat): seq<Event>
    requires n <= |ts| == |ts'|
  {
    if n == 0 then [] else NewStarts(ts, ts', n - 1) + if GoesOn(ts[n - 1], ts'[n - 1]) then [] else [Reset(n - 1)]
  }

  lemma {:induction false} NewStartsKeepAccounts(h: seq<Event>, ts: seq<Task>, ts': seq<Task>, n: nat, k: nat, i: nat)
    requires n <= |ts| == |ts'| && i < |ts| && k > 0 && Account(h, ts[i], i, k)
    requires GoesOn(ts[i], ts'[i]) || Fresh(ts'[i])
    ensures Account(h + NewStarts(ts, ts', n), if i < n then ts'[i] else ts[i], i, k)
    decreases n
  {
    if n == 0 {
      assert h + [] == h;
    } else {
      NewStartsKeepAccounts(h, ts, ts', n - 1, k, i);
      var h1 := h + NewStarts(ts, ts', n - 1);
      if GoesOn(ts[n - 1], ts'[n - 1]) {
        assert h + NewStarts(ts, ts', n) == h1;
        if i == n - 1 {
          AccountSame(h1, ts[i], ts'[i], i, k);
        }
      } else {
        assert h + NewStarts(ts, ts', n) == h1 + [Reset(n - 1)];
        if i == n - 1 {
          AccountReset(h1, Reset(i), ts'[i], i, k);
        } else {
          AccountOther(h1, Reset(n - 1), if i < n - 1 then ts'[i] else ts[i], i, k);
        }
      }
    }
  }

  lemma {:induction false} NewStartsAreResets(ts: seq<Task>, ts': seq<Task>, n: nat)
    requires n <= |ts| == |ts'|
    ensures forall x :: 0 <= x < |NewStarts(ts, ts', n)| ==> NewStarts(ts, ts', n)[x].Reset?
  {
    if n > 0 {
      NewStartsAreResets(ts, ts', n - 1);
    }
  }

  lemma {:induction false} NewStartsOf(ts: seq<Task>, ts': seq<Task>, n: nat, i: nat)
    requires n <= |ts| == |ts'| && i < |ts| && GoesOn(ts[i], ts'[i])
    ensures Reset(i) !in NewStarts(ts, ts', n)
  {
    if n > 0 {
      NewStartsOf(ts, ts', n - 1, i);
    }
  }

  // ---- waiting for a boost ----

  /** Ready to run, at the last level, with nothing left. */
  predicate Spent(t: Task, k: nat) {
    t.state.Runnable? && t.level == k - 1 && t.hold == 0
  }

  predicate Concerns(e: Event, i: nat) {
    e == Reset(i) || (e.Ran? && e.slot == i)
  }

  ghost predicate BoostIn(h: seq<Event>, m: nat, n: nat) {
    exists b :: m <= b < n && b < |h| && h[b].Boosted?
  }

  /** Since position m slot i waited: only after a boost was it dispatched or reset, or became anything but spent. */
  ghost predicate Waited(h: seq<Event>, m: nat, t: Task, k: nat, i: nat) {
    && (Spent(t, k) || BoostIn(h, m, |h|))
    && forall x :: m <= x < |h| && Concerns(h[x], i) ==> BoostIn(h, m, x)
  }

  /** All slots that were spent have waited. */
  ghost predicate Waits(h: seq<Event>, ts: seq<Task>, h': seq<Event>, ts': seq<Task>, k: nat) {
    && h <= h' && |ts| == |ts'|
    && forall i :: 0 <= i < |ts| && Spent(ts[i], k) ==> Waited(h', |h|, ts'[i], k, i)
  }

  lemma WaitsNone(h: seq<Event>, ts: seq<Task>, k: nat)
    ensures Waits(h, ts, h, ts, k)
  {
  }

  lemma BoostStays(h: seq<Event>, h': seq<Event>, m: nat, m': nat, n: nat, n': nat)
    requires h <= h' && m' <= m && n <= n' && BoostIn(h, m, n)
    ensures BoostIn(h', m', n')
  {
    var b :| m <= b < n && b < |h| && h[b].Boosted?;
    assert h'[b].Boosted?;
  }

  lemma WaitedTwice(h: seq<Event>, m: nat, t: Task, h': seq<Event>, t': Task, k: nat, i: nat)
    requires m <= |h| && h <= h' && Waited(h, m, t, k, i) && (Spent(t, k) ==> Waited(h', |h|, t', k, i))
    ensures Waited(h', m, t', k, i)
  {
    if Spent(t, k) {
      if BoostIn(h', |h|, |h'|) {
        BoostStays(h', h', |h|, m, |h'|, |h'|);
      }
    } else {
      BoostStays(h, h', m, m, |h|, |h'|);
    }
    forall x | m <= x < |h'| && Concerns(h'[x], i) ensures BoostIn(h', m, x) {
      if x < |h| {
        assert Concerns(h[x], i);
        BoostStays(h, h', m, m, x, x);
      } else if Spent(t, k) {
        BoostStays(h', h', |h|, m, x, x);
      } else {
        BoostStays(h, h', m, m, |h|, x);
      }
    }
  }

  lemma WaitsTwice(h: seq<Event>, ts: seq<Task>, h1: seq<Event>, ts1: seq<Task>, h2: seq<Event>, ts2: seq<Task>, k: nat)
    requires Waits(h, ts, h1, ts1, k) && Waits(h1, ts1, h2, ts2, k)
    ensures Waits(h, ts, h2, ts2, k)
  {
    hide Waited;
    forall i | 0 <= i < |ts| && Spent(ts[i], k) ensures Waited(h2, |h|, ts2[i], k, i) {
      WaitedTwice(h1, |h|, ts1[i], h2, ts2[i], k, i);
    }
  }

  lemma BoostWaits(h: seq<Event>, ts: seq<Task>, ts': seq<Task>, k: nat)
    requires |ts| == |ts'|
    ensures Waits(h, ts, h + [Boosted], ts', k)
  {
    var h' := h + [Boosted];
    assert h'[|h|].Boosted?;
    assert BoostIn(h', |h|, |h'|);
  }

  lemma DemotionWaits(h: seq<Event>, ts: seq<Task>, i: nat, t: Task, h': seq<Event>, k: nat)
    requires i < |ts| && (if Spent(ts[i], k) then t == ts[i] && h' == h else h' == h || h' == h + [Reset(i)])
    ensures Waits(h, ts, h', ts[i := t], k)
  {
  }

  lemma TurnWaits(h: seq<Event>, ts: seq<Task>, q: nat, after: seq<Task>, e: Event, k: nat)
    requires q < |ts| && ts[q].hold > 0 && Interlude(Started(ts, q), after, q) && e.Ran? && e.slot == q
    ensures Waits(h, ts, h + NewStarts(Started(ts, q), after, |ts|) + [e], Charged(after, q), k)
  {
    var starts := NewStarts(Started(ts, q), after, |ts|);
    var h' := h + starts + [e];
    forall i | 0 <= i < |ts| && Spent(ts[i], k) ensures Waited(h', |h|, Charged(after, q)[i], k, i) {
      assert i != q && Started(ts, q)[i] == ts[i];
      NewStartsOf(Started(ts, q), after, |ts|, i);
      NewStartsAreResets(Started(ts, q), after, |ts|);
      forall x | |h| <= x < |h'| ensures !Concerns(h'[x], i) {
        if x < |h'| - 1 {
          assert h'[x] == starts[x - |h|];
          assert h'[x] in starts;
        }
      }
    }
  }

  /** q is the choice among the eligible: no higher priority, and either the candidate p or the first of its priority. */
  ghost predicate Chosen(ts: seq<Task>, level: nat, p: nat, q: nat) {
    && q < |ts| && Eligible(ts[q], level)
    && (forall i :: 0 <= i < |ts| && Eligible(ts[i], level) ==> ts[i].priority <= ts[q].priority)
    && (q == p || forall i :: 0 <= i < q && Eligible(ts[i], level) ==> ts[i].priority < ts[q].priority)
  }

  /** q is runnable with quantum left at the highest such queue, of the highest priority there, and the first of those
      in the table. */
  ghost predicate Best(ts: seq<Task>, level: nat, q: nat) {
    && q < |ts| && Eligible(ts[q], level)
    && (forall i :: 0 <= i < |ts| && ts[i].state.Runnable? && ts[i].hold > 0 ==> level <= ts[i].level)
    && (forall i :: 0 <= i < |ts| && Eligible(ts[i], level) ==> ts[i].priority <= ts[q].priority)
    && (forall i :: 0 <= i < q && Eligible(ts[i], level) ==> ts[i].priority < ts[q].priority)
  }

  lemma FirstChoice(ts: seq<Task>, level: nat, p: nat, q: nat)
    requires p < |ts| && Chosen(ts, level, p, q) && forall j :: 0 <= j < p ==> !Eligible(ts[j], level)
    requires forall i :: 0 <= i < |ts| && ts[i].state.Runnable? && ts[i].hold > 0 ==> level <= ts[i].level
    ensures Best(ts, level, q)
  {
  }

  function Demoted(t: Task, k: nat): Task
    requires k > 0
  {
    if t.state.Sleeping? then t.(level := 0, hold := 4)
    else if t.level < k - 1 && t.hold == 0 then t.(level := t.level + 1, hold := Quantum(t.level + 1))
    else t
  }

  /** What the start of an iteration makes of a process: state and priority stay. A sleeper goes to the top. A boost
      takes everybody there. Otherwise one with quantum left stays as it is; one without goes one queue down, with that
      queue's quantum, unless it is in the last one. */
  ghost predicate Requeued(t: Task, t': Task, k: nat, boost: bool) {
    && t'.state == t.state && t'.priority == t.priority
    && (t.state.Sleeping? || boost ==> t'.level == 0 && t'.hold == 4)
    && (!t.state.Sleeping? && !boost && t.hold > 0 ==> t' == t)
    && (!t.state.Sleeping? && !boost && t.hold == 0 && t.level < k - 1 ==>
          t'.level == t.level + 1 && t'.hold == 2 * (t.level + 1) + 4)
    && (!t.state.Sleeping? && !boost && t.hold == 0 && t.level >= k - 1 ==> t' == t)
  }

  /** Nobody waits with an empty quantum but in the last queue. */
  ghost predicate AllQueued(ts: seq<Task>, k: nat) {
    forall i :: 0 <= i < |ts| && ts[i].hold == 0 ==> !ts[i].state.Sleeping? && ts[i].level >= k - 1
  }

  lemma PreparedQueues(ts: seq<Task>, k: nat, boost: bool)
    requires k > 0
    ensures forall i :: 0 <= i < |ts| ==> Requeued(ts[i], Prepared(ts, k, boost)[i], k, boost)
    ensures AllQueued(Prepared(ts, k, boost), k)
  {
  }

  /** A runnable process that cannot be dispatched has had all the runs that there are without a reset. */
  ghost predicate HadAll(h: seq<Event>, ts: seq<Task>, k: nat) {
    forall i :: 0 <= i < |ts| && ts[i].state.Runnable? && !Eligible(ts[i], ts[i].level) ==>
      Spent(ts[i], k) && AllRuns(h, i, k) == k * k + 3 * k
  }

  lemma QueuedHadAll(h: seq<Event>, ts: seq<Task>, k: nat)
    requires k > 0 && AllQueued(ts, k) && Accounts(h, ts, k)
    ensures HadAll(h, ts, k)
  {
    forall i | 0 <= i < |ts| && ts[i].state.Runnable? && !Eligible(ts[i], ts[i].level)
      ensures Spent(ts[i], k) && AllRuns(h, i, k) == k * k + 3 * k
    {
      assert Account(h, ts[i], i, k);
      QuantumConserved(h, ts[i], i, k);
    }
  }

  lemma DemoteKeepsAccount(h: seq<Event>, t: Task, i: nat, k: nat)
    requires Account(h, t, i, k) && t.level < k - 1 && t.hold == 0
    ensures Account(h, t.(level := t.level + 1, hold := Quantum(t.level + 1)), i, k)
  {
    var t' := t.(level := t.level + 1, hold := Quantum(t.level + 1));
    assert forall j :: 0 <= j < k ==> Expected(t', j) == Expected(t, j);
  }

  /** The table after boost and demotion. */
  ghost function Prepared(ts: seq<Task>, k: nat, boost: bool): (r: seq<Task>)
    requires k > 0
    ensures |r| == |ts|
  {
    seq(|ts|, i requires 0 <= i < |ts| => Demoted(if boost then ts[i].(level := 0, hold := 4) else ts[i], k))
  }

  ghost function BoostedTable(ts: seq<Task>): (r: seq<Task>)
    ensures |r| == |ts|
  {
    seq(|ts|, i requires 0 <= i < |ts| => ts[i].(level := 0, hold := 4))
  }

  // ---- why a quiet pass ends ----

  function TotalHold(ts: seq<Task>): nat {
    if ts == [] then 0 else TotalHold(ts[..|ts| - 1]) + ts[|ts| - 1].hold
  }

  lemma {:induction false} TotalHoldSame(ts: seq<Task>, ts': seq<Task>)
    requires |ts| == |ts'| && forall q :: 0 <= q < |ts| ==> ts'[q].hold == ts[q].hold
    ensures TotalHold(ts') == TotalHold(ts)
    decreases |ts|
  {
    if ts != [] {
      TotalHoldSame(ts[..|ts| - 1], ts'[..|ts'| - 1]);
    }
  }

  lemma {:induction false} TotalHoldCharged(ts: seq<Task>, p: nat)
    requires p < |ts| && ts[p].hold > 0
    ensures TotalHold(Charged(ts, p)) == TotalHold(ts) - 1
    decreases |ts|
  {
    var n := |ts| - 1;
    var ts' := Charged(ts, p);
    if p == n {
      assert ts'[..n] == ts[..n];
    } else {
      TotalHoldCharged(ts[..n], p);
      assert ts'[..n] == Charged(ts[..n], p);
    }
  }

  /** A run that nobody resets takes one from the total. */
  lemma TurnShrinks(ts: seq<Task>, q: nat, ts': seq<Task>)
    requires q < |ts| && ts[q].hold > 0 && Quiet(Started(ts, q), ts', q)
    ensures TotalHold(Charged(ts', q)) == TotalHold(ts) - 1
  {
    assert forall i :: 0 <= i < |ts| ==> GoesOn(Started(ts, q)[i], ts'[i]);
    TotalHoldSame(ts, ts');
    TotalHoldCharged(ts', q);
  }

  /** Turns of the dispatching loop that are left at position i, at most. */
  ghost function TurnsLeft(ts: seq<Task>, i: int): int {
    TotalHold(ts) * (NPROC + 1) + NPROC - i
  }

  /** Each turn takes one off that, even if it jumps back. */
  lemma QuietTurn(ts: seq<Task>, level: nat, i: nat, q: nat, m: nat, run: Behaviour)
    requires AlwaysQuiet(run) && i < |ts| == NPROC && Chosen(ts, level, i, q)
    ensures var after := run(m, Started(ts, q), q);
      |after| == NPROC && TurnsLeft(Charged(after, q), q + 1) < TurnsLeft(ts, i)
  {
    hide TotalHold;
    var after := run(m, Started(ts, q), q);
    assert Quiet(Started(ts, q), after, q);
    TurnShrinks(ts, q, after);
  }

  /** In the history from m on, position n is the first dispatch. */
  ghost predicate FirstRun(h: seq<Event>, m: nat, n: nat) {
    m <= n < |h| && h[n].Ran? && NoRun(h, m, n)
  }

  ghost predicate NoRun(h: seq<Event>, m: nat, n: nat) {
    forall x :: m <= x < n && x < |h| ==> !h[x].Ran?
  }

  /** The position behind the last process dispatched since h. */
  ghost function Behind(h: seq<Event>, h': seq<Event>): nat {
    if |h'| > |h| && h'[|h'| - 1].Ran? then h'[|h'| - 1].slot + 1 else 0
  }

  // ---- why a pass with yield2 need not end ----

  /** The process in slot 0 calls yield2 whenever it runs. */
  ghost predicate AlwaysYields(run: Behaviour) {
    forall n: nat, ts: seq<Task> :: |ts| > 0 ==> run(n, ts, 0) == ts[0 := Task(Runnable, 0, 4, ts[0].priority)]
  }

  /** At the top, slot 0 has the highest priority and slot 1 a lower one. */
  ghost predicate Outranks(ts: seq<Task>) {
    && |ts| > 1 && Eligible(ts[0], 0) && Eligible(ts[1], 0) && ts[1].priority < ts[0].priority
    && forall i :: 0 <= i < |ts| && Eligible(ts[i], 0) ==> ts[i].priority <= ts[0].priority
  }

  /** After n turns, all of them dispatches of slot 0. */
  ghost predicate Hogged(h: seq<Event>, ts: seq<Task>, m: nat, h': seq<Event>, ts': seq<Task>, m': nat, n: nat) {
    && h <= h' && m' == m + n && |ts'| == |ts| > 0 && ts' == ts[0 := if n == 0 then ts[0] else ts[0].(hold := 3)]
    && forall x :: |h| <= x < |h'| ==> h'[x] == Ran(0, 0, 0) || h'[x] == Reset(0)
  }

  lemma HoggedNone(h: seq<Event>, ts: seq<Task>, m: nat)
    requires |ts| > 0
    ensures Hogged(h, ts, m, h, ts, m, 0)
  {
    assert ts == ts[0 := ts[0]];
  }

  /** The loop is at slot 0 at first and then at slot 1, and finds it eligible. */
  lemma HoggedNext(h: seq<Event>, ts: seq<Task>, m: nat, h': seq<Event>, ts': seq<Task>, m': nat, n: nat)
    requires Outranks(ts) && Hogged(h, ts, m, h', ts', m', n)
    ensures Outranks(ts') && Eligible(ts'[if n == 0 then 0 else 1], 0)
  {
  }

  /** With yield2 an iteration need not end: slot 0 is chosen again, comes back as it was, and the loop again goes on
      behind it, so that slot 1 never gets its turn. */
  lemma YieldLivelock(h: seq<Event>, ts: seq<Task>, m: nat, h': seq<Event>, ts': seq<Task>, m': nat, n: nat, run: Behaviour, q: nat)
    requires Outranks(ts) && AlwaysYields(run) && Hogged(h, ts, m, h', ts', m', n) && Chosen(ts', 0, if n == 0 then 0 else 1, q)
    ensures q == 0
    ensures var before := Started(ts', q);
      var after := run(m', before, q);
      && |after| == |ts|
      && Hogged(h, ts, m, h' + NewStarts(before, after, |ts|) + [Ran(q, 0, after[q].level)], Charged(after, q), m' + 1, n + 1)
  {
    HoggedNext(h, ts, m, h', ts', m', n);
    var before := Started(ts', 0);
    var after := run(m', before, 0);
    assert ts'[0].priority == ts[0].priority;
    assert Charged(after, 0) == ts[0 := ts[0].(hold := 3)];
    var starts := NewStarts(before, after, |ts|);
    NewStartsAreResets(before, after, |ts|);
    forall x | 0 <= x < |starts| ensures starts[x] == Reset(0) {
      StartedSlot(before, after, |ts|, x);
    }
  }

  /** A reset is of a slot that did not go on. */
  lemma {:induction false} StartedSlot(ts: seq<Task>, ts': seq<Task>, n: nat, x: nat)
    requires n <= |ts| == |ts'| && x < |NewStarts(ts, ts', n)|
    ensures exists i :: 0 <= i < n && NewStarts(ts, ts', n)[x] == Reset(i) && !GoesOn(ts[i], ts'[i])
  {
    if x < |NewStarts(ts, ts', n - 1)| {
      StartedSlot(ts, ts', n - 1, x);
    }
  }

  class Scheduler {
    const k: nat
    var ts: seq<Task>
    var flag: bool
    /** Dispatches so far: the moment that a behaviour may depend on. */
    var moment: nat
    ghost var history: seq<Event>

    ghost predicate Valid()
      reads this
    {
      2 <= k <= 5 && |ts| == NPROC && Accounts(history, ts, k) && Sane(history, k)
    }

    /** At boot all slots are zero but for the first process. */
    constructor (k: nat, ts: seq<Task>)
      requires 2 <= k <= 5 && |ts| == NPROC
      requires forall i :: 0 <= i < NPROC ==> if ts[i].state.Unused? then ts[i].level == 0 == ts[i].hold else Fresh(ts[i])
      ensures Valid() && this.k == k && this.ts == ts && flag && history == []
    {
      this.k, this.ts, flag, moment, history := k, ts, true, 0, [];
    }

    /** Priority boost. */
    method Boost()
      requires Valid()
      modifies `ts, `history
      ensures Valid() && ts == BoostedTable(old(ts)) && history == old(history) + [Boosted]
      ensures Waits(old(history), old(ts), history, ts, k)
    {
      var i := 0;
      while i < NPROC
        invariant 0 <= i <= NPROC && |ts| == NPROC && history == old(history)
        invariant forall j :: 0 <= j < NPROC ==> ts[j] == if j < i then old(ts)[j].(level := 0, hold := 4) else old(ts)[j]
      {
        ts := ts[i := ts[i].(level := 0, hold := 4)];
        i := i + 1;
      }
      history := history + [Boosted];
      forall j | 0 <= j < NPROC ensures Account(history, ts[j], j, k) {
        AccountReset(old(history), Boosted, ts[j], j, k);
      }
      BoostWaits(old(history), old(ts), ts, k);
    }

    /** A process that used up its quantum goes one queue down; a sleeping one goes to the top. */
    method Demote()
      requires Valid()
      modifies `ts, `history
      ensures Valid() && (forall i :: 0 <= i < NPROC ==> ts[i] == Demoted(old(ts)[i], k))
      ensures forall i :: 0 <= i < NPROC ==> Requeued(old(ts)[i], ts[i], k, false)
      ensures old(history) <= history && NoRun(history, |old(history)|, |history|)
      ensures Waits(old(history), old(ts), history, ts, k)
    {
      hide Account, Waits;
      var i := 0;
      WaitsNone(history, ts, k);
      while i < NPROC
        invariant 0 <= i <= NPROC && Valid() && old(history) <= history && NoRun(history, |old(history)|, |history|)
        invariant forall j :: 0 <= j < NPROC ==> ts[j] == if j < i then Demoted(old(ts)[j], k) else old(ts)[j]
        invariant Waits(old(history), old(ts), history, ts, k)
      {
        ghost var h, was := history, ts;
        assert Account(history, ts[i], i, k);
        if ts[i].level < k - 1 && ts[i].hold <= 0 {
          DemoteKeepsAccount(history, ts[i], i, k);
          ts := ts[i := ts[i].(level := ts[i].level + 1, hold := Quantum(ts[i].level + 1))];
        }
        if ts[i].state.Sleeping? {
          ResetSlot(i, ts[i].(level := 0, hold := Quantum(0)));
        }
        DemotionWaits(h, was, i, ts[i], history, k);
        assert ts == was[i := ts[i]];
        WaitsTwice(old(history), old(ts), h, was, history, ts, k);
        i := i + 1;
      }
    }

    method ResetSlot(i: nat, t: Task)
      requires Valid() && i < NPROC && Fresh(t)
      modifies `ts, `history
      ensures Valid() && ts == old(ts)[i := t] && history == old(history) + [Reset(i)]
    {
      hide Account;
      ts := ts[i := t];
      history := history + [Reset(i)];
      forall j | 0 <= j < NPROC ensures Account(history, ts[j], j, k) {
        if j == i {
          AccountReset(old(history), Reset(i), t, i, k);
        } else {
          AccountOther(old(history), Reset(i), ts[j], j, k);
        }
      }
    }

    /** The highest queue that has a process to run, or k. */
    method Level() returns (now: nat)
      requires Valid()
      ensures now <= k && (now < k <==> AnyEligible(ts, k))
      ensures now < k ==> exists i :: 0 <= i < NPROC && Eligible(ts[i], now)
      ensures forall i :: 0 <= i < NPROC && ts[i].state.Runnable? && ts[i].hold > 0 ==> now <= ts[i].level
    {
      now := k;
      var i := 0;
      while i < NPROC
        invariant 0 <= i <= NPROC && now <= k
        invariant now < k ==> exists j :: 0 <= j < i && Eligible(ts[j], now)
        invariant forall j :: 0 <= j < i && ts[j].state.Runnable? && ts[j].hold > 0 ==> now <= ts[j].level
      {
        if ts[i].state.Runnable? && ts[i].hold > 0 && ts[i].level < now {
          now := ts[i].level;
        }
        i := i + 1;
      }
      assert forall j :: 0 <= j < NPROC ==> Account(history, ts[j], j, k);
    }

    /** The inner scan: from candidate p, move to strictly higher priorities in table order. */
    method Choose(p: nat, level: nat) returns (q: nat)
      requires |ts| == NPROC && p < NPROC && Eligible(ts[p], level)
      ensures Chosen(ts, level, p, q)
    {
      q := p;
      var i := 0;
      while i < NPROC
        invariant 0 <= i <= NPROC && q < NPROC && Eligible(ts[q], level) && ts[p].priority <= ts[q].priority
        invariant forall j :: 0 <= j < i && Eligible(ts[j], level) ==> ts[j].priority <= ts[q].priority
        invariant q == p || forall j :: 0 <= j < q && Eligible(ts[j], level) ==> ts[j].priority < ts[q].priority
      {
        if ts[i].state.Runnable? && ts[i].level == level && ts[i].hold > 0 && ts[i].priority > ts[q].priority {
          q := i;
        }
        i := i + 1;
      }
    }

    /** Run q until it comes back, whatever it does, and charge it for the run: the history gets the resets that
        happened meanwhile and then the dispatch. */
    method Dispatch(q: nat, run: Behaviour)
      requires Valid() && q < NPROC && ts[q].state.Runnable? && ts[q].hold > 0 && Possible(run)
      modifies `ts, `history, `moment
      ensures Valid() && moment == old(moment) + 1 && Waits(old(history), old(ts), history, ts, k)
      ensures var before := Started(old(ts), q);
        var after := run(old(moment), before, q);
        && before[q].state.Running? && (forall i :: 0 <= i < NPROC && i != q ==> before[i] == old(ts)[i])
        && |after| == NPROC && ts == Charged(after, q)
        && history == old(history) + NewStarts(before, after, NPROC) + [Ran(q, old(ts)[q].level, after[q].level)]
    {
      hide Account, Waits;
      ghost var h := history;
      ts := Started(ts, q);
      ghost var before := ts;
      assert Interlude(before, run(moment, before, q), q);
      ts := run(moment, ts, q);
      moment := moment + 1;
      history := history + NewStarts(before, ts, NPROC);
      forall i | 0 <= i < NPROC ensures Account(history, ts[i], i, k) {
        if i == q {
          AccountSame(h, old(ts)[q], before[q], q, k);
        }
        NewStartsKeepAccounts(h, before, ts, NPROC, k, i);
      }
      NewStartsAreResets(before, ts, NPROC);
      AccountBounds(h, old(ts)[q], q, k);
      TurnWaits(h, old(ts), q, ts, Ran(q, old(ts)[q].level, ts[q].level), k);
      Charge(q, old(ts)[q].level);
    }

    /** The end of a run. */
    method Charge(q: nat, ghost at: nat)
      requires Valid() && q < NPROC && !ts[q].state.Unused? && ts[q].hold > 0 && at < k
      modifies `ts, `history
      ensures Valid() && ts == Charged(old(ts), q) && history == old(history) + [Ran(q, at, old(ts)[q].level)]
    {
      ghost var e := Ran(q, at, ts[q].level);
      if ts[q].hold > 0 {
        ts := ts[q := ts[q].(hold := ts[q].hold - 1)];
      }
      history := history + [e];
      forall i | 0 <= i < NPROC ensures Account(history, ts[i], i, k) {
        assert Account(old(history), old(ts)[i], i, k);
        if i == q {
          AccountRun(old(history), at, old(ts)[q], q, k);
        } else {
          AccountOther(old(history), e, ts[i], i, k);
        }
      }
    }
  
    /** One turn of the dispatching loop at table position i: skip it, or run the best process of the level and go on
        behind that one, which may be before i. */
    method Turn(i: nat, level: nat, run: Behaviour) returns (next: nat)
      requires Valid() && i < NPROC && Possible(run)
      modifies `ts, `history, `moment
      ensures Valid() && next <= NPROC && old(history) <= history && Waits(old(history), old(ts), history, ts, k)
      ensures !Eligible(old(ts)[i], level) ==> ts == old(ts) && history == old(history) && next == i + 1
      ensures moment == old(moment) + if Eligible(old(ts)[i], level) then 1 else 0
      ensures Eligible(old(ts)[i], level) ==>
        && 0 < next && Chosen(old(ts), level, i, next - 1)
        && var q := next - 1;
           var before := Started(old(ts), q);
           var after := run(old(moment), before, q);
           && |after| == NPROC && ts == Charged(after, q)
           && history == old(history) + NewStarts(before, after, NPROC) + [Ran(q, level, after[q].level)]
    {
      hide Waits;
      if !ts[i].state.Runnable? || ts[i].level != level || ts[i].hold <= 0 {
        WaitsNone(history, ts, k);
        return i + 1;
      }
      var q := Choose(i, level);
      Dispatch(q, run);
      next := q + 1;
    }

    /** The start of an iteration: the boost at every hundredth tick, once, and the demotions. */
    method Prepare(ticks: nat)
      requires Valid()
      modifies `ts, `history, `flag
      ensures Valid() && ts == Prepared(old(ts), k, ticks % 100 == 0 && old(flag))
      ensures forall i :: 0 <= i < NPROC ==> Requeued(old(ts)[i], ts[i], k, ticks % 100 == 0 && old(flag))
      ensures AllQueued(ts, k) && HadAll(history, ts, k)
      ensures flag <==> ticks % 100 != 0
      ensures old(history) <= history && NoRun(history, |old(history)|, |history|)
      ensures Waits(old(history), old(ts), history, ts, k)
    {
      hide Accounts, Sane, Waits, AllQueued, HadAll, Requeued;
      WaitsNone(history, ts, k);
      if ticks % 100 == 0 && flag {
        flag := false;
        Boost();
      }
      if ticks % 100 != 0 {
        flag := true;
      }
      ghost var h, was := history, ts;
      Demote();
      WaitsTwice(old(history), old(ts), h, was, history, ts, k);
      PreparedQueues(old(ts), k, ticks % 100 == 0 && old(flag));
      QueuedHadAll(history, ts, k);
    }

    /** The dispatching loop for as many turns as `turns` allows, from table `ts` with this level chosen. Its first
        dispatch is the best process, whatever the processes do. If they leave quanta and free slots alone the loop
        ends, after at most TurnsLeft turns. It has ended when nobody behind the last process dispatched is eligible. */
    method Pass(level: nat, run: Behaviour, turns: nat) returns (ended: bool, ghost first: Option<nat>)
      requires Valid() && Possible(run) && level < k
      requires forall i :: 0 <= i < NPROC && ts[i].state.Runnable? && ts[i].hold > 0 ==> level <= ts[i].level
      modifies `ts, `history, `moment
      ensures Valid() && old(history) <= history && Waits(old(history), old(ts), history, ts, k)
      ensures first.None? ==> NoRun(history, |old(history)|, |history|) && ts == old(ts)
      ensures first.Some? ==> FirstRun(history, |old(history)|, first.value)
      ensures first.Some? ==> Best(old(ts), level, history[first.value].slot) && history[first.value].at == level
      ensures turns >= NPROC && (exists i :: 0 <= i < NPROC && Eligible(old(ts)[i], level)) ==> first.Some?
      ensures AlwaysQuiet(run) && turns >= TurnsLeft(old(ts), 0) ==> ended
      ensures ended ==> forall j :: Behind(old(history), history) <= j < NPROC ==> !Eligible(ts[j], level)
      ensures level == 0 && Outranks(old(ts)) && AlwaysYields(run) ==>
        !ended && Hogged(old(history), old(ts), old(moment), history, ts, moment, turns)
    {
      hide Accounts, Sane, Best, NoRun, NewStarts, TotalHold, Charged, Waits, Outranks, AlwaysYields, Hogged,
        AlwaysQuiet, Possible, Chosen;
      var i, n := 0, 0;
      NoRunYet(history);
      WaitsNone(history, ts, k);
      ghost var hogging := level == 0 && Outranks(ts) && AlwaysYields(run);
      HoggedNone(history, ts, moment);
      first := None;
      while i < NPROC && n < turns
        invariant 0 <= i <= NPROC && 0 <= n <= turns && Valid() && old(history) <= history
        invariant Waits(old(history), old(ts), history, ts, k)
        invariant first.None? ==> ts == old(ts) && history == old(history) && i == n
        invariant first.None? ==> forall j :: 0 <= j < i ==> !Eligible(old(ts)[j], level)
        invariant first.Some? ==> FirstRun(history, |old(history)|, first.value)
        invariant first.Some? ==> Best(old(ts), level, history[first.value].slot) && history[first.value].at == level
        invariant AlwaysQuiet(run) ==> n + TurnsLeft(ts, i) <= TurnsLeft(old(ts), 0)
        invariant forall j :: Behind(old(history), history) <= j < i ==> !Eligible(ts[j], level)
        invariant hogging ==> i == (if n == 0 then 0 else 1) && Hogged(old(history), old(ts), old(moment), history, ts, moment, n)
        decreases turns - n
      {
        ghost var before, h, moment0 := ts, history, moment;
        if hogging {
          HoggedNext(old(history), old(ts), old(moment), h, before, moment0, n);
        }
        var next := Turn(i, level, run);
        WaitsTwice(old(history), old(ts), h, before, history, ts, k);
        if first.Some? {
          FirstStays(h, history, |old(history)|, first.value);
        }
        if Eligible(before[i], level) {
          var q := next - 1;
          if hogging {
            YieldLivelock(old(history), old(ts), old(moment), h, before, moment0, n, run, q);
          }
          ghost var after := run(moment0, Started(before, q), q);
          TurnIsFirst(h, Started(before, q), after, history, Ran(q, level, after[q].level));
          if first.None? {
            FirstChoice(before, level, i, q);
            first := Some(|history| - 1);
          }
          if AlwaysQuiet(run) {
            QuietTurn(before, level, i, q, moment0, run);
          }
        }
        i := next;
        n := n + 1;
      }
      ended := i == NPROC;
    }

    /** One iteration of the scheduler's outer loop: if somebody is runnable with quantum left it dispatches, and the
        first is the best process of the table as boost and demotion left it; otherwise it boosts. */
    method Iteration(ticks: nat, run: Behaviour, turns: nat) returns (ended: bool, ghost first: Option<nat>)
      requires Valid() && Possible(run)
      modifies this
      ensures Valid() && old(history) <= history && Waits(old(history), old(ts), history, ts, k)
      ensures var ready := Prepared(old(ts), k, ticks % 100 == 0 && old(flag));
        && (first.None? ==> NoRun(history, |old(history)|, |history|))
        && (first.Some? ==> FirstRun(history, |old(history)|, first.value))
        && (first.Some? ==> Best(ready, history[first.value].at, history[first.value].slot))
        && (turns >= NPROC && AnyEligible(ready, k) ==> first.Some?)
        && (!AnyEligible(ready, k) ==> first.None? && ended && ts == BoostedTable(ready))
        && (AlwaysQuiet(run) && turns >= TurnsLeft(ready, 0) ==> ended)
    {
      hide Accounts, Sane, Prepared, BoostedTable, TurnsLeft, Best, Waits;
      Prepare(ticks);
      ghost var ready, h := ts, history;
      var level := Level();
      if level == k {
        Boost();
        WaitsTwice(old(history), old(ts), h, ready, history, ts, k);
        return true, None;
      }
      ended, first := Pass(level, run, turns);
      PassIsFirst(old(history), h, history);
      WaitsTwice(old(history), old(ts), h, ready, history, ts, k);
    }

    /** Interrupts between two iterations wake sleepers. */
    method Interrupt(woken: seq<Task>)
      requires Valid() && |woken| == NPROC && forall i :: 0 <= i < NPROC ==> Interrupted(ts[i], woken[i])
      modifies `ts
      ensures Valid() && ts == woken && Waits(history, old(ts), history, ts, k)
    {
      forall i | 0 <= i < NPROC ensures Account(history, woken[i], i, k) {
        AccountSame(history, ts[i], woken[i], i, k);
      }
      ts := woken;
    }

    /** If anything is runnable, a dispatch happens within two iterations, whatever sleepers are woken in between. */
    method TwoIterations(ticks: nat, ticks': nat, run: Behaviour, interrupts: seq<Task> -> seq<Task>, p: nat) returns (ghost first: nat)
      requires Valid() && Possible(run) && p < NPROC && ts[p].state.Runnable?
      requires forall s: seq<Task> :: |interrupts(s)| == |s| && forall i :: 0 <= i < |s| ==> Interrupted(s[i], interrupts(s)[i])
      modifies this
      ensures Valid() && FirstRun(history, |old(history)|, first) && Waits(old(history), old(ts), history, ts, k)
    {
      hide Accounts, Sane, Best, FirstRun, NoRun, Prepared, BoostedTable, Waits;
      ghost var ready := Prepared(ts, k, ticks % 100 == 0 && flag);
      ghost var h, start := history, ts;
      var _, f := Iteration(ticks, run, NPROC);
      ghost var h1, ts1 := history, ts;
      if f.None? {
        BoostMakesEligible(start, k, ticks % 100 == 0 && old(flag), ts, interrupts(ts), ticks' % 100 == 0 && flag, p);
      }
      Interrupt(interrupts(ts));
      WaitsTwice(h, start, h1, ts1, history, ts, k);
      ghost var ts2 := ts;
      var _, g := Iteration(ticks', run, NPROC);
      first := if f.Some? then f.value else g.value;
      RunsJoin(h, h1, history, f, g);
      WaitsTwice(h, start, h1, ts2, history, ts, k);
    }
  }

  /** A dispatch seen in either half of a history is seen in the whole. */
  lemma RunsJoin(h: seq<Event>, h1: seq<Event>, h2: seq<Event>, f: Option<nat>, g: Option<nat>)
    requires h <= h1 <= h2
    requires if f.Some? then FirstRun(h1, |h|, f.value) else NoRun(h1, |h|, |h1|) && g.Some? && FirstRun(h2, |h1|, g.value)
    ensures FirstRun(h2, |h|, if f.Some? then f.value else g.value)
  {
  }

  /** The first dispatch of the pass is the first of the iteration, because preparing dispatches nobody. */
  lemma PassIsFirst(h: seq<Event>, h1: seq<Event>, h2: seq<Event>)
    requires h <= h1 <= h2 && NoRun(h1, |h|, |h1|)
    ensures forall n :: FirstRun(h2, |h1|, n) ==> FirstRun(h2, |h|, n)
    ensures NoRun(h2, |h1|, |h2|) ==> NoRun(h2, |h|, |h2|)
  {
  }

  /** Between iterations only sleepers change, by being woken. */
  predicate Interrupted(t: Task, t': Task) {
    t' == t || (t.state.Sleeping? && t' == t.(state := Runnable))
  }

  /** After the boost of an iteration that found nobody, whoever is runnable is eligible in the next one. */
  lemma BoostMakesEligible(ts: seq<Task>, k: nat, boost: bool, ts1: seq<Task>, ts2: seq<Task>, boost': bool, p: nat)
    requires 2 <= k <= 5 && p < |ts| && ts[p].state.Runnable? && ts1 == BoostedTable(Prepared(ts, k, boost))
    requires |ts2| == |ts1| && forall i :: 0 <= i < |ts1| ==> Interrupted(ts1[i], ts2[i])
    ensures AnyEligible(Prepared(ts2, k, boost'), k)
  {
    var t := Prepared(ts2, k, boost')[p];
    assert Interrupted(ts1[p], ts2[p]);
    assert t.level < k && Eligible(t, t.level);
  }

  lemma NoRunYet(h: seq<Event>)
    ensures NoRun(h, |h|, |h|)
  {
  }

  lemma FirstStays(h: seq<Event>, h': seq<Event>, m: nat, n: nat)
    requires h <= h' && FirstRun(h, m, n)
    ensures FirstRun(h', m, n) && h'[n] == h[n]
  {
  }

  lemma TurnIsFirst(h: seq<Event>, before: seq<Task>, after: seq<Task>, h': seq<Event>, e: Event)
    requires |before| == |after| == NPROC && h' == h + NewStarts(before, after, NPROC) + [e] && e.Ran?
    ensures FirstRun(h', |h|, |h'| - 1) && h'[|h'| - 1] == e && |h'| > |h|
  {
    NewStartsAreResets(before, after, NPROC);
  }
}
