/** Task selection of kernel/sched.c: schedule() over the table of 64 task slots, and the clock
    tick that charges the running task. */
module Scheduling {
  datatype State = Running | Interruptible | Uninterruptible | Zombie | Stopped

  /** counter and priority are never negative; a priority is at least 1 (sys_nice, lines 378-383). */
  datatype Task = Task(state: State, counter: nat, priority: nat, alarm: int, signal: bv32, blocked: bv32)

  datatype Slot = Empty | Used(task: Task)

  type Table = t: seq<Slot> | |t| == 64 witness seq(64, i => Empty)

  const SIGKILL: bv32 := 0x100
  const SIGALRM: bv32 := 0x2000
  const BLOCKABLE: bv32 := 0xfffb_feff

  // ---------------------------------------------------------------- alarms and signals

  /** Whether a set of signals has a member of another. */
  predicate Has(signals: bv32, which: bv32) {
    signals & which != 0
  }

  function Alarmed(t: Task): Task {
    t.(signal := t.signal | SIGALRM, alarm := 0)
  }

  /** Lines 113-119 for one task. */
  function Woken(t: Task, now: int): Task {
    var rung := if t.alarm != 0 && t.alarm < now then Alarmed(t) else t;
    if Deliverable(rung) && rung.state.Interruptible? then rung.(state := Running) else rung
  }

  predicate Unblocked(signal: bv32, blocked: bv32) {
    Has(signal, !(BLOCKABLE & blocked))
  }

  predicate Deliverable(t: Task) {
    Unblocked(t.signal, t.blocked)
  }

  function WokenSlot(s: Slot, now: int): Slot {
    if s.Used? then Used(Woken(s.task, now)) else s
  }

  /** Lines 111-120; slot 0 is left alone. */
  function Wake(t: Table, now: int): Table {
    seq(64, i requires 0 <= i < 64 => if i == 0 then t[i] else WokenSlot(t[i], now))
  }

  lemma KillUnblocked(signal: bv32, blocked: bv32)
    ensures Has(signal, SIGKILL) ==> Unblocked(signal, blocked)
  {
  }

  lemma AlarmBit(blocked: bv32)
    ensures Has(SIGALRM, !(BLOCKABLE & blocked)) <==> !Has(blocked, SIGALRM)
  {
  }

  lemma UnionBits(a: bv32, b: bv32, which: bv32)
    ensures (a | b) & which != 0 <==> a & which != 0 || b & which != 0
  {
  }

  lemma UnionHas(a: bv32, b: bv32, which: bv32)
    ensures Has(a | b, which) <==> Has(a, which) || Has(b, which)
  {
    UnionBits(a, b, which);
  }

  /** The alarm signal can be blocked like others. */
  lemma AlarmUnblocked(signal: bv32, blocked: bv32)
    ensures Unblocked(signal | SIGALRM, blocked) <==> Unblocked(signal, blocked) || !Has(blocked, SIGALRM)
  {
    hide Has;
    AlarmBit(blocked);
    UnionHas(signal, SIGALRM, !(BLOCKABLE & blocked));
  }

  lemma AlarmDelivers(t: Task)
    ensures Alarmed(t).state == t.state && Alarmed(t).alarm == 0 && Alarmed(t).blocked == t.blocked
    ensures Deliverable(Alarmed(t)) <==> Deliverable(t) || !Has(t.blocked, SIGALRM)
  {
    hide Unblocked, Has;
    AlarmUnblocked(t.signal, t.blocked);
  }

  /** What schedule() wakes: an interruptible task with a kill signal or any other it does not block, or
      with its alarm over and the alarm signal not blocked; no other task. */
  lemma WokenExactly(t: Task, now: int)
    ensures var due := t.alarm != 0 && t.alarm < now;
      && (t.state.Interruptible? ==>
            (Woken(t, now).state == Running <==> Deliverable(t) || (due && !Has(t.blocked, SIGALRM))))
      && (t.state.Interruptible? && Has(t.signal, SIGKILL) ==> Woken(t, now).state == Running)
      && (!t.state.Interruptible? || Woken(t, now).state != Running ==> Woken(t, now).state == t.state)
      && (due <==> t.alarm != 0 && Woken(t, now).alarm == 0)
  {
    hide Unblocked, Has, Alarmed;
    AlarmDelivers(t);
    KillUnblocked(t.signal, t.blocked);
  }

  /** What waking does to a task besides: an alarm that is over is raised as bit 13 of the signals and
      switched off, and nothing else changes. */
  lemma WokenRest(t: Task, now: int)
    ensures var (due, w) := (t.alarm != 0 && t.alarm < now, Woken(t, now));
      && w.signal == (if due then t.signal | 0x2000 else t.signal) && w.alarm == (if due then 0 else t.alarm)
      && w.counter == t.counter && w.priority == t.priority && w.blocked == t.blocked
  {
    hide Deliverable;
  }

  // ---------------------------------------------------------------- the choice

  predicate Runnable(t: Table, i: nat) {
    0 < i < 64 && t[i].Used? && t[i].task.state.Running?
  }

  function Counter(t: Table, i: nat): int
    requires i < 64
  {
    if t[i].Used? then t[i].task.counter else 0
  }

  /** i is the choice among the slots from k up: nobody there counts more, and nobody higher
      counts as much. */
  ghost predicate BestFrom(t: Table, k: nat, i: nat) {
    && Runnable(t, i) && k <= i
    && (forall j | k <= j < 64 && Runnable(t, j) :: Counter(t, j) <= Counter(t, i))
    && (forall j | i < j < 64 && Runnable(t, j) :: Counter(t, j) < Counter(t, i))
  }

  /** The outcome of one pass over slots 63 down to k. */
  ghost predicate Scanned(t: Table, k: nat, c: int, next: nat) {
    if c == -1 then next == 0 && forall j | k <= j < 64 :: !Runnable(t, j)
    else BestFrom(t, k, next) && c == Counter(t, next)
  }

  /** Lines 136-139. */
  function Recharged(t: Table): Table {
    seq(64, i requires 0 <= i < 64 =>
      if i > 0 && t[i].Used? then Used(t[i].task.(counter := t[i].task.counter / 2 + t[i].task.priority)) else t[i])
  }

  /** Someone can run, but nobody who can has time left. */
  ghost predicate Exhausted(t: Table) {
    && (exists i: nat :: Runnable(t, i))
    && (forall i: nat | Runnable(t, i) :: Counter(t, i) == 0)
  }

  ghost predicate PrioritiesOk(t: Table) {
    forall i | 0 <= i < 64 && t[i].Used? :: t[i].task.priority >= 1
  }

  /** What schedule() leaves in the table: alarms and signals seen to, and all counters recharged
      exactly when nobody able to run has time left. */
  ghost function Settled(t: Table, now: int): Table {
    var w := Wake(t, now);
    if Exhausted(w) then Recharged(w) else w
  }

  ghost predicate Chosen(t: Table, next: nat) {
    if exists i: nat :: Runnable(t, i) then BestFrom(t, 1, next) else next == 0
  }

  /** One recharge is enough. */
  lemma RechargeSuffices(t: Table)
    requires PrioritiesOk(t) && Exhausted(t)
    ensures PrioritiesOk(Recharged(t)) && !Exhausted(Recharged(t))
    ensures forall i: nat :: Runnable(Recharged(t), i) <==> Runnable(t, i)
  {
    var u := Recharged(t);
    assert forall i: nat :: Runnable(u, i) <==> Runnable(t, i);
    var i: nat :| Runnable(t, i);
    assert Runnable(u, i) && Counter(u, i) >= 1;
  }

  /** The choice is determined. */
  lemma ChosenUnique(t: Table, a: nat, b: nat)
    requires Chosen(t, a) && Chosen(t, b)
    ensures a == b
  {
    if exists i: nat :: Runnable(t, i) {
      assert Runnable(t, a) && Runnable(t, b);
      assert Counter(t, a) == Counter(t, b);
    }
  }

  // ---------------------------------------------------------------- counters stay bounded

  ghost predicate Bounded(t: Table) {
    forall i | 0 < i < 64 && t[i].Used? :: t[i].task.counter < 2 * t[i].task.priority
  }

  /** Waking and recharging keep every counter below twice the priority, so a task can store up
      less than two slices by sleeping. */
  lemma SettledBounded(t: Table, now: int)
    requires Bounded(t)
    ensures Bounded(Settled(t, now))
    ensures PrioritiesOk(t) ==> PrioritiesOk(Settled(t, now))
  {
    var w := Wake(t, now);
    assert forall i | 0 < i < 64 && t[i].Used? :: w[i].Used? && w[i].task.counter == t[i].task.counter && w[i].task.priority == t[i].task.priority;
  }

  lemma ScanMeans(t: Table, c: int, next: nat)
    requires Scanned(t, 1, c, next)
    ensures c == 0 <==> Exhausted(t)
    ensures Chosen(t, next)
  {
    if c != -1 { assert Runnable(t, next); }
  }

  function Charged(t: Table, i: nat): Table
    requires i < 64
  {
    if t[i].Used? && t[i].task.counter > 0 then t[i := Used(t[i].task.(counter := t[i].task.counter - 1))] else t
  }

  ghost function Ticked(t: Table, i: nat, user: bool, now: int): Table
    requires i < 64
  {
    var c := Charged(t, i);
    if user && Counter(t, i) <= 1 then Settled(c, now) else c
  }

  ghost predicate SameSlots(t: Table, u: Table) {
    forall i | 0 <= i < 64 :: u[i].Used? <==> t[i].Used?
  }

  /** Slot i as schedule() leaves it: slot 0 as it was, any other woken and, exactly when somebody can run
      and nobody who can has time left, with half of its time and its priority on top. */
  lemma SettledSlot(t: Table, now: int, i: nat)
    requires i < 64
    ensures var (w, u) := (Wake(t, now), Settled(t, now));
      var over := (exists j :: 0 < j < 64 && w[j].Used? && w[j].task.state.Running?) &&
                  forall j | 0 < j < 64 && w[j].Used? && w[j].task.state.Running? :: w[j].task.counter == 0;
      if i == 0 || t[i].Empty? then u[i] == t[i] && w[i] == t[i]
      else
        && w[i] == Used(Woken(t[i].task, now))
        && u[i] == Used(w[i].task.(counter := if over then w[i].task.counter / 2 + w[i].task.priority else w[i].task.counter))
  {
    hide Woken;
    var w := Wake(t, now);
    assert forall j: nat :: Runnable(w, j) <==> 0 < j < 64 && w[j].Used? && w[j].task.state.Running?;
  }

  /** The choice spelled out: nobody to run, or the one with most time, the highest of several. */
  lemma ChosenIs(t: Table, next: nat)
    requires Chosen(t, next)
    ensures next == 0 <==> forall i | 0 < i < 64 :: !(t[i].Used? && t[i].task.state.Running?)
    ensures next != 0 ==> next < 64 && t[next].Used? && t[next].task.state.Running?
    ensures next != 0 ==> forall i | 0 < i < 64 && t[i].Used? && t[i].task.state.Running? && i != next ::
      t[i].task.counter < t[next].task.counter || (t[i].task.counter == t[next].task.counter && i < next)
  {
    assert forall i: nat :: Runnable(t, i) <==> 0 < i < 64 && t[i].Used? && t[i].task.state.Running?;
  }

  class Scheduler {
    const task: array<Slot>
    var current: nat
    var jiffies: int

    ghost predicate Valid()
      reads this, task
    {
      task.Length == 64 && task[0].Used? && current < 64 && task[current].Used? && PrioritiesOk(task[..])
    }

    /** sched_init, lines 395-401: task 0 is there and runs. */
    constructor (init: Task)
      requires init.priority >= 1
      ensures Valid() && Value() == seq(64, i => if i == 0 then Used(init) else Empty) && current == 0 && jiffies == 0 && fresh(task)
    {
      task := new Slot[64](i => if i == 0 then Used(init) else Empty);
      current, jiffies := 0, 0;
    }

    ghost function Value(): Table
      reads this, task
      requires task.Length == 64
    {
      task[..]
    }

    /** Lines 111-120. */
    method WakeTasks()
      requires task.Length == 64
      modifies task
      ensures Value() == Wake(old(Value()), jiffies)
    {
      hide Deliverable, Alarmed;
      var p := 63;
      while p > 0
        invariant 0 <= p < 64
        invariant forall i | 0 <= i <= p :: task[i] == old(task[i])
        invariant forall i | p < i < 64 :: task[i] == WokenSlot(old(task[i]), jiffies)
      {
        if task[p].Used? {
          var t := task[p].task;
          if t.alarm != 0 && t.alarm < jiffies {
            t := Alarmed(t);
          }
          if Deliverable(t) && t.state.Interruptible? {
            t := t.(state := Running);
          }
          task[p] := Used(t);
        }
        p := p - 1;
      }
    }

    /** Lines 125-134. */
    method Scan() returns (c: int, next: nat)
      requires task.Length == 64
      ensures Scanned(Value(), 1, c, next)
    {
      c, next := -1, 0;
      var i := 63;
      while i > 0
        invariant 0 <= i < 64 && Scanned(Value(), i + 1, c, next)
      {
        if task[i].Used? && task[i].task.state.Running? && task[i].task.counter > c {
          c, next := task[i].task.counter, i;
        }
        i := i - 1;
      }
    }

    /** Lines 136-139. */
    method Recharge()
      requires task.Length == 64
      modifies task
      ensures Value() == Recharged(old(Value()))
    {
      var p := 63;
      while p > 0
        invariant 0 <= p < 64
        invariant forall i | 0 <= i <= p :: task[i] == old(task[i])
        invariant forall i | p < i < 64 :: task[i] == Recharged(old(Value()))[i]
      {
        if task[p].Used? {
          task[p] := Used(task[p].task.(counter := task[p].task.counter / 2 + task[p].task.priority));
        }
        p := p - 1;
      }
    }

    /** Lines 104-142, up to the switch. */
    method Schedule() returns (next: nat)
      requires task.Length == 64 && PrioritiesOk(Value())
      modifies task
      ensures Value() == Settled(old(Value()), jiffies) && PrioritiesOk(Value())
      ensures Chosen(Value(), next) && (forall n: nat | Chosen(Value(), n) :: n == next)
      ensures next == 0 <==> forall i | 0 < i < 64 :: !(task[i].Used? && task[i].task.state.Running?)
      ensures next != 0 ==> next < 64 && task[next].Used? && task[next].task.state.Running? && task[next].task.counter > 0
      ensures next != 0 ==> forall i | 0 < i < 64 && task[i].Used? && task[i].task.state.Running? && i != next ::
        task[i].task.counter < task[next].task.counter || (task[i].task.counter == task[next].task.counter && i < next)
      ensures SameSlots(old(Value()), Value())
    {
      WakeTasks();
      ghost var w := Value();
      ghost var again := false;
      while true
        invariant PrioritiesOk(Value()) && Value() == (if again then Recharged(w) else w)
        invariant again ==> Exhausted(w) && !Exhausted(Value())
        decreases if again then 0 else 1
      {
        var c;
        c, next := Scan();
        ScanMeans(Value(), c, next);
        if c != 0 { break; }
        RechargeSuffices(Value());
        Recharge();
        again := true;
      }
      forall n: nat | Chosen(Value(), n) ensures n == next { ChosenUnique(Value(), n, next); }
      ChosenIs(Value(), next);
    }

    /** Lines 314-335 without the timers: the running task pays for the tick, and outside the
        kernel an empty counter gives up the processor. */
    method DoTimer(user: bool)
      requires Valid()
      modifies this`current, task
      ensures Valid()
      ensures Value() == Ticked(old(Value()), old(current), user, jiffies)
      ensures var (t, c) := (old(task[current].task), old(task[current].task.counter));
        if user && c <= 1 then Value() == Settled(old(Value())[old(current) := Used(t.(counter := 0))], jiffies)
        else Value() == old(Value())[old(current) := Used(t.(counter := if c > 0 then c - 1 else 0))]
      ensures if user && old(task[current].task.counter) <= 1 then Chosen(Value(), current) else current == old(current)
    {
      var t := task[current].task;
      task[current] := Used(t.(counter := if t.counter > 0 then t.counter - 1 else 0));
      assert Value() == Charged(old(Value()), current);
      if t.counter - 1 > 0 { return; }
      if !user { return; }
      current := Schedule();
    }
  }

  // ---------------------------------------------------------------- how long a ready task waits

  /** The total time left to the slots below n other than r. */
  function TimeOfOthers(t: Table, r: nat, n: nat): nat
    requires n <= 64
  {
    if n == 0 then 0 else (if n - 1 == r then 0 else Counter(t, n - 1)) + TimeOfOthers(t, r, n - 1)
  }

  /** A tick of the clock, a call of schedule(), a child in an empty slot (kernel/fork.c, line 90: its
      counter is its priority), or any change a task or an interrupt makes to a slot: sleeping, waking,
      signals, nice, exit. */
  datatype Event = Tick(user: bool, now: int) | Reschedule(now: int) | Fork(i: nat, child: Task) | Change(i: nat, slot: Slot)

  datatype Machine = Machine(table: Table, current: nat)

  ghost predicate Possible(m: Machine, e: Event, m': Machine) {
    match e
    case Tick(user, now) =>
      && m.current < 64 && m'.table == Ticked(m.table, m.current, user, now)
      && (if user && Counter(m.table, m.current) <= 1 then Chosen(m'.table, m'.current) else m'.current == m.current)
    case Reschedule(now) => m'.table == Settled(m.table, now) && Chosen(m'.table, m'.current)
    case Fork(i, child) =>
      && 0 < i < 64 && m.table[i].Empty? && child.counter == child.priority >= 1
      && m'.table == m.table[i := Used(child)] && m'.current == m.current
    case Change(i, slot) => i < 64 && m'.table == m.table[i := slot] && m'.current == m.current
  }

  ghost predicate IsRun(ms: seq<Machine>, es: seq<Event>) {
    |ms| == |es| + 1 && forall k | 0 <= k < |es| :: Possible(ms[k], es[k], ms[k + 1])
  }

  /** r could run, has time left, and is not running. */
  ghost predicate Ready(m: Machine, r: nat) {
    Runnable(m.table, r) && Counter(m.table, r) > 0 && m.current != r && m.current < 64
  }

  /** Whatever ticks, calls of schedule(), forks and changes follow, a counter stays below twice the
      priority, as long as the slots that others change have it so: sys_nice (kernel/sched.c, lines
      378-383) can lower a priority to half the counter or less. */
  lemma {:induction false} CountersBounded(ms: seq<Machine>, es: seq<Event>)
    requires IsRun(ms, es) && Bounded(ms[0].table)
    requires forall k | 0 <= k < |es| && es[k].Change? && es[k].slot.Used? :: es[k].slot.task.counter < 2 * es[k].slot.task.priority
    ensures Bounded(ms[|es|].table)
    decreases |es|
  {
    if es != [] {
      var n := |es| - 1;
      CountersBounded(ms[..n + 1], es[..n]);
      assert Possible(ms[n], es[n], ms[n + 1]);
      match es[n] {
        case Tick(_, now) => SettledBounded(Charged(ms[n].table, ms[n].current), now);
        case Reschedule(now) => SettledBounded(ms[n].table, now);
        case Fork(_, _) =>
        case Change(_, _) =>
      }
    }
  }

  /** The ticks that found time to take away. */
  function ChargedTicks(ms: seq<Machine>, es: seq<Event>): nat
    requires |ms| == |es| + 1
    decreases |es|
  {
    if es == [] then 0 else
      (if es[0].Tick? && ms[0].current < 64 && Counter(ms[0].table, ms[0].current) > 0 then 1 else 0)
      + ChargedTicks(ms[1..], es[1..])
  }

  /** The time an event gives to a slot other than r. */
  function Given(m: Machine, e: Event, r: nat): nat {
    match e
    case Fork(_, child) => child.counter
    case Change(i, slot) =>
      if i < 64 && i != r && slot.Used? && slot.task.counter > Counter(m.table, i) then slot.task.counter - Counter(m.table, i)
      else 0
    case _ => 0
  }

  function GivenIn(ms: seq<Machine>, es: seq<Event>, r: nat): nat
    requires |ms| == |es| + 1
    decreases |es|
  {
    if es == [] then 0 else Given(ms[0], es[0], r) + GivenIn(ms[1..], es[1..], r)
  }

  /** More time for one slot is no more time for all but that. */
  lemma {:induction false} SumGrows(t: Table, u: Table, r: nat, n: nat, c: nat, more: nat)
    requires n <= 64 && forall i | 0 <= i < n && i != r :: Counter(u, i) <= Counter(t, i) + if i == c then more else 0
    ensures TimeOfOthers(u, r, n) <= TimeOfOthers(t, r, n) + if c < n then more else 0
  {
    if n > 0 { SumGrows(t, u, r, n - 1, c, more); }
  }

  lemma {:induction false} SumMonotone(t: Table, u: Table, r: nat, n: nat)
    requires n <= 64 && forall i | 0 <= i < n && i != r :: Counter(u, i) <= Counter(t, i)
    ensures TimeOfOthers(u, r, n) <= TimeOfOthers(t, r, n)
  {
    if n > 0 { SumMonotone(t, u, r, n - 1); }
  }

  lemma {:induction false} SumDrops(t: Table, u: Table, r: nat, n: nat, c: nat)
    requires n <= 64 && c < n && c != r && forall i | 0 <= i < n && i != r :: Counter(u, i) <= Counter(t, i)
    requires Counter(u, c) < Counter(t, c)
    ensures TimeOfOthers(u, r, n) < TimeOfOthers(t, r, n)
  {
    if c == n - 1 {
      SumMonotone(t, u, r, n - 1);
    } else {
      SumDrops(t, u, r, n - 1, c);
    }
  }

  /** While r is ready nobody is recharged, so schedule() leaves every counter alone. */
  lemma SettledKeepsCounters(t: Table, r: nat, now: int)
    requires Runnable(t, r) && Counter(t, r) > 0
    ensures forall i: nat | i < 64 :: Counter(Settled(t, now), i) == Counter(t, i)
  {
    var w := Wake(t, now);
    assert Runnable(w, r) && Counter(w, r) > 0;
    assert !Exhausted(w);
  }

  lemma StepDrops(m: Machine, e: Event, m': Machine, r: nat)
    requires Possible(m, e, m') && Ready(m, r) && Ready(m', r)
    ensures TimeOfOthers(m'.table, r, 64) + (if e.Tick? && Counter(m.table, m.current) > 0 then 1 else 0)
         <= TimeOfOthers(m.table, r, 64) + Given(m, e, r)
  {
    match e
    case Tick(user, now) =>
      var c := Charged(m.table, m.current);
      assert Runnable(c, r) && Counter(c, r) > 0;
      SettledKeepsCounters(c, r, now);
      if Counter(m.table, m.current) > 0 {
        SumDrops(m.table, m'.table, r, 64, m.current);
      } else {
        SumMonotone(m.table, m'.table, r, 64);
      }
    case Reschedule(now) =>
      SettledKeepsCounters(m.table, r, now);
      SumMonotone(m.table, m'.table, r, 64);
    case Fork(i, child) => SumGrows(m.table, m'.table, r, 64, i, child.counter);
    case Change(i, slot) => SumGrows(m.table, m'.table, r, 64, i, Given(m, e, r));
  }

  /** A task that stays ready waits for no more charged ticks than the time the others have and are
      given meanwhile, by forks and by changes of their slots; schedule() gives them none. */
  lemma {:induction false} WaitBound(ms: seq<Machine>, es: seq<Event>, r: nat)
    requires IsRun(ms, es) && forall k | 0 <= k < |ms| :: Ready(ms[k], r)
    ensures ChargedTicks(ms, es) <= TimeOfOthers(ms[0].table, r, 64) + GivenIn(ms, es, r)
    decreases |es|
  {
    if es != [] {
      assert Possible(ms[0], es[0], ms[1]);
      StepDrops(ms[0], es[0], ms[1], r);
      forall k | 0 <= k < |es| - 1 ensures Possible(ms[1..][k], es[1..][k], ms[1..][k + 1]) {
        assert Possible(ms[k + 1], es[k + 1], ms[k + 2]);
      }
      WaitBound(ms[1..], es[1..], r);
    }
  }

  /** When the others have no time left, the next choice is r. */
  lemma {:induction false} NextIsReady(t: Table, r: nat, now: int, next: nat)
    requires Runnable(t, r) && Counter(t, r) > 0 && TimeOfOthers(t, r, 64) == 0
    requires Chosen(Settled(t, now), next)
    ensures next == r
  {
    SettledKeepsCounters(t, r, now);
    forall i: nat | i < 64 && i != r ensures Counter(t, i) == 0 { ZeroSum(t, r, 64, i); }
    var w := Wake(t, now);
    assert Runnable(w, r);
  }

  lemma {:induction false} ZeroSum(t: Table, r: nat, n: nat, i: nat)
    requires n <= 64 && TimeOfOthers(t, r, n) == 0 && i < n && i != r
    ensures Counter(t, i) == 0
  {
    if i < n - 1 { ZeroSum(t, r, n - 1, i); }
  }
}
