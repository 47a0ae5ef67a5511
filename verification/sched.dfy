/** schedule and do_timer of kernel/sched.c. */
module Scheduling {
  import opened Wrappers
  import opened WaitQueues

  const NR_TASKS: nat := 64
  const SIGKILL: nat := 9
  const SIGALRM: nat := 14
  const SIGSTOP: nat := 19

  datatype Task = Task(state: TaskState, counter: int, priority: int, timeout: nat, alarm: nat, signal: set<nat>,
      blocked: set<nat>)

  type Table = t: seq<Option<Task>> | |t| == 64 witness seq(64, _ => None)

  predicate Expired(time: nat, jiffies: nat) {
    time != 0 && time < jiffies
  }

  /** A signal is pending that the task does not block, or that cannot be blocked. */
  ghost predicate Notified(signal: set<nat>, blocked: set<nat>) {
    exists k :: k in signal && (k !in blocked || k == SIGKILL || k == SIGSTOP)
  }

  /** What schedule's first loop makes of a task, field by field: an expired timeout is cleared, an
      expired alarm becomes SIGALRM, and an interruptible task is runnable if its timeout has
      expired or a signal reaches it. */
  ghost predicate CheckedTo(p: Task, q: Task, jiffies: nat) {
    && q.timeout == (if Expired(p.timeout, jiffies) then 0 else p.timeout)
    && q.alarm == (if Expired(p.alarm, jiffies) then 0 else p.alarm)
    && (forall k :: k in q.signal <==> k in p.signal || (k == SIGALRM && Expired(p.alarm, jiffies)))
    && q.blocked == p.blocked
    && q.state == (if p.state == Interruptible && (Expired(p.timeout, jiffies) || Notified(q.signal, p.blocked))
                   then Running else p.state)
    && q.counter == p.counter && q.priority == p.priority
  }

  predicate Runnable(t: Table, i: nat) {
    0 < i < NR_TASKS && t[i].Some? && t[i].value.state == Running
  }

  function Credit(t: Table, i: nat): int {
    if i < NR_TASKS && t[i].Some? then t[i].value.counter else 0
  }

  /** Every task has a positive priority and a counter from 0 to just below twice that. */
  predicate CreditOk(p: Task) {
    0 < p.priority && 0 <= p.counter < 2 * p.priority
  }

  ghost predicate Credits(t: Table) {
    forall i: nat | i < NR_TASKS && t[i].Some? :: CreditOk(t[i].value)
  }

  /** t' is t after the first loop. */
  ghost predicate AllChecked(t: Table, t': Table, jiffies: nat) {
    t'[0] == t[0] && forall i: nat | 0 < i < NR_TASKS ::
      if t[i].Some? then t'[i].Some? && CheckedTo(t[i].value, t'[i].value, jiffies) else t'[i].None?
  }

  /** The counters are halved and the priorities added. */
  ghost predicate AllRecharged(t: Table, t': Table) {
    t'[0] == t[0] && forall i: nat | 0 < i < NR_TASKS ::
      t'[i] == if t[i].None? then None
               else Some(t[i].value.(counter := t[i].value.counter / 2 + t[i].value.priority))
  }

  /** A runnable task of maximal counter, the highest-numbered of them; 0 if none is runnable. */
  ghost predicate Best(t: Table, next: nat) {
    if next == 0 then forall i: nat :: !Runnable(t, i)
    else Runnable(t, next) && forall i: nat | Runnable(t, i) ::
      Credit(t, i) < Credit(t, next) || (Credit(t, i) == Credit(t, next) && i <= next)
  }

  /** Somebody can run, but nobody has credit. */
  ghost predicate Exhausted(t: Table) {
    (exists i: nat :: Runnable(t, i)) && forall i: nat | Runnable(t, i) :: Credit(t, i) == 0
  }

  /** What schedule does to the task table, and whom it picks. */
  ghost predicate Scheduled(t: Table, t': Table, jiffies: nat, next: nat) {
    exists m: Table :: AllChecked(t, m, jiffies) && (if Exhausted(m) then AllRecharged(m, t') else t' == m) &&
      Best(t', next)
  }

  class Scheduler {
    const task: array<Option<Task>>
    var current: nat
    var jiffies: nat

    constructor (task: array<Option<Task>>)
      requires task.Length == 64
      ensures this.task == task && current == 0 && jiffies == 0
    {
      this.task := task;
      current, jiffies := 0, 0;
    }

    ghost function Tasks(): Table
      requires task.Length == 64
      reads this, task
    {
      task[..]
    }

    /** The inner selection loop: (-1, 0) when nobody can run. */
    method Select() returns (c: int, next: nat)
      requires task.Length == 64 && Credits(Tasks())
      ensures Best(Tasks(), next) && next < NR_TASKS
      ensures c == if next == 0 then -1 else Credit(Tasks(), next)
    {
      c, next := -1, 0;
      var i := NR_TASKS - 1;
      while i > 0
        invariant 0 <= i < NR_TASKS && next < NR_TASKS
        invariant c == if next == 0 then -1 else Credit(Tasks(), next)
        invariant next == 0 ==> forall j: nat | j > i :: !Runnable(Tasks(), j)
        invariant next != 0 ==> next > i && Runnable(Tasks(), next) && forall j: nat | j > i && Runnable(Tasks(), j) ::
          Credit(Tasks(), j) < c || (Credit(Tasks(), j) == c && j <= next)
      {
        if task[i].Some? && task[i].value.state == Running && task[i].value.counter > c {
          c, next := task[i].value.counter, i;
        }
        i := i - 1;
      }
    }

    /** One turn of schedule's first loop. */
    method Check(i: nat)
      requires task.Length == 64 && i < 64 && task[i].Some?
      modifies task
      ensures task[i].Some? && CheckedTo(old(task[i]).value, task[i].value, jiffies)
      ensures forall j: nat | j < 64 && j != i :: task[j] == old(task[j])
    {
      var p := task[i].value;
      if p.timeout != 0 && p.timeout < jiffies {
        p := p.(timeout := 0);
        if p.state == Interruptible { p := p.(state := Running); }
      }
      if p.alarm != 0 && p.alarm < jiffies {
        p := p.(signal := p.signal + {SIGALRM});
        p := p.(alarm := 0);
      }
      var reaching := p.signal - (p.blocked - {SIGKILL, SIGSTOP});
      Reaching(p.signal, p.blocked);
      if reaching != {} && p.state == Interruptible { p := p.(state := Running); }
      task[i] := Some(p);
    }

    /** schedule(), up to switch_to: its endless loop makes at most one recharge. */
    method Schedule()
      requires task.Length == 64 && Credits(Tasks())
      modifies task, `current
      ensures Credits(Tasks()) && current < NR_TASKS
      ensures task[0] == old(task[0])
      ensures forall i: nat | 0 < i < NR_TASKS && old(task[i]).None? :: task[i].None?
      ensures forall i: nat | 0 < i < NR_TASKS && old(task[i]).Some? ::
        && task[i].Some?
        && var p, q := old(task[i]).value, task[i].value;
           && (p.timeout != 0 && p.timeout < jiffies ==> q.timeout == 0 && q.state != Interruptible)
           && (p.timeout == 0 || jiffies <= p.timeout ==> q.timeout == p.timeout)
           && (p.alarm != 0 && p.alarm < jiffies ==> q.alarm == 0 && q.signal == p.signal + {SIGALRM})
           && (p.alarm == 0 || jiffies <= p.alarm ==> q.alarm == p.alarm && q.signal == p.signal)
           && (p.state != Interruptible ==> q.state == p.state)
           && (p.state == Interruptible ==> q.state == Running || q.state == Interruptible)
           && (p.state == Interruptible && q.state == Running ==>
                 (p.timeout != 0 && p.timeout < jiffies) || q.signal - (p.blocked - {SIGKILL, SIGSTOP}) != {})
           && (q.signal - (p.blocked - {SIGKILL, SIGSTOP}) != {} ==> q.state != Interruptible)
           && q.blocked == p.blocked && q.priority == p.priority
      ensures
        || (forall i: nat | i < NR_TASKS :: Credit(Tasks(), i) == Credit(old(Tasks()), i))
        || (forall i: nat | 0 < i < NR_TASKS && task[i].Some? ::
              task[i].value.counter == Credit(old(Tasks()), i) / 2 + task[i].value.priority)
      ensures Scheduled(old(Tasks()), Tasks(), jiffies, current)
      ensures current != 0 ==> Credit(Tasks(), current) > 0
    {
      ghost var t0 := Tasks();
      var i := NR_TASKS - 1;
      while i > 0
        invariant 0 <= i < NR_TASKS && task[0] == t0[0]
        invariant forall j: nat | 0 < j <= i :: task[j] == t0[j]
        invariant forall j: nat | i < j < NR_TASKS ::
          if t0[j].Some? then task[j].Some? && CheckedTo(t0[j].value, task[j].value, jiffies) else task[j].None?
      {
        if task[i].Some? { Check(i); }
        i := i - 1;
      }
      ghost var m := Tasks();
      CheckedCredits(t0, m, jiffies);
      ghost var rounds := 0;
      var c, next := Select();
      while c == 0
        invariant task.Length == 64 && Credits(Tasks()) && 0 <= next < NR_TASKS && Best(Tasks(), next)
        invariant c == if next == 0 then -1 else Credit(Tasks(), next)
        invariant rounds == 0 ==> Tasks() == m
        invariant rounds > 0 ==> Exhausted(m) && AllRecharged(m, Tasks()) && c != 0
        decreases if rounds == 0 then 1 else 0
      {
        assert Exhausted(m) by {
          assert Runnable(m, next);
        }
        Recharge();
        rounds := rounds + 1;
        assert Runnable(Tasks(), next) && Credit(Tasks(), next) > 0;
        c, next := Select();
      }
      assert rounds == 0 ==> !Exhausted(m) by {
        if rounds == 0 && next != 0 { assert Runnable(m, next) && Credit(m, next) != 0; }
      }
      current := next;
      SettledFields(t0, m, Tasks(), jiffies);
    }

    method Recharge()
      requires task.Length == 64 && Credits(Tasks())
      modifies task
      ensures Credits(Tasks()) && AllRecharged(old(Tasks()), Tasks())
      ensures forall j: nat | Runnable(Tasks(), j) :: Credit(Tasks(), j) > 0
      ensures forall i: nat | 0 < i < NR_TASKS && old(task[i]).Some? ::
        task[i].Some? && task[i].value.counter == old(task[i]).value.counter / 2 + old(task[i]).value.priority
    {
      ghost var t0 := Tasks();
      var i := NR_TASKS - 1;
      while i > 0
        invariant 0 <= i < NR_TASKS && task[0] == t0[0]
        invariant forall j: nat | 0 < j <= i :: task[j] == t0[j]
        invariant forall j: nat | i < j < NR_TASKS ::
          task[j] == if t0[j].None? then None
                     else Some(t0[j].value.(counter := t0[j].value.counter / 2 + t0[j].value.priority))
      {
        if task[i].Some? {
          var p := task[i].value;
          task[i] := Some(p.(counter := p.counter / 2 + p.priority));
        }
        i := i - 1;
      }
      forall j: nat | j < NR_TASKS && task[j].Some?
        ensures CreditOk(task[j].value) && (j > 0 ==> task[j].value.counter > 0)
      {
        assert CreditOk(t0[j].value);
      }
    }

    /** do_timer's accounting of the running task; cpl is the privilege level of the
        interrupted code. */
    method Tick(cpl: nat)
      requires task.Length == 64 && Credits(Tasks()) && current < NR_TASKS && task[current].Some?
      modifies task, this
      ensures Credits(Tasks()) && current < NR_TASKS && jiffies == old(jiffies)
      ensures var p := old(task[current]).value;
        var left := if p.counter > 0 then p.counter - 1 else 0;
        var t1 := old(Tasks())[old(current) := Some(p.(counter := left))];
        if left > 0 || cpl == 0 then Tasks() == t1 && current == old(current)
        else Scheduled(t1, Tasks(), jiffies, current)
    {
      var p := task[current].value;
      ghost var t0 := Tasks();
      assert CreditOk(p);
      task[current] := Some(p.(counter := if p.counter - 1 > 0 then p.counter - 1 else 0));
      assert Tasks() == Charged(t0, current);
      forall j: nat | j < NR_TASKS && task[j].Some? ensures CreditOk(task[j].value) { assert t0[j].Some? &&
          CreditOk(t0[j].value); }
      if p.counter - 1 > 0 { return; }
      if cpl == 0 { return; }
      Schedule();
    }
  }

  lemma CheckedCredits(t: Table, t': Table, jiffies: nat)
    requires Credits(t) && AllChecked(t, t', jiffies)
    ensures Credits(t') && forall i: nat :: Credit(t', i) == Credit(t, i)
  {
    forall i: nat | i < NR_TASKS && t'[i].Some? ensures CreditOk(t'[i].value) {
      assert t[i].Some? && CreditOk(t[i].value);
    }
  }

  /** The first loop and at most one recharge, on the fields. */
  lemma SettledFields(t: Table, m: Table, t': Table, jiffies: nat)
    requires AllChecked(t, m, jiffies) && (t' == m || AllRecharged(m, t'))
    ensures forall i: nat | 0 < i < NR_TASKS && t[i].Some? ::
      && t'[i].Some?
      && var p, q := t[i].value, t'[i].value;
         && CheckedTo(p, q.(counter := p.counter), jiffies)
         && q.signal == (if Expired(p.alarm, jiffies) then p.signal + {SIGALRM} else p.signal)
    ensures forall i: nat | 0 < i < NR_TASKS && t[i].Some? ::
      (Notified(t'[i].value.signal, t[i].value.blocked) <==>
       t'[i].value.signal - (t[i].value.blocked - {SIGKILL, SIGSTOP}) != {})
  {
    forall i: nat | 0 < i < NR_TASKS && t[i].Some? ensures Notified(t'[i].value.signal, t[i].value.blocked) <==>
      t'[i].value.signal - (t[i].value.blocked - {SIGKILL, SIGSTOP}) != {}
    {
      Reaching(t'[i].value.signal, t[i].value.blocked);
    }
  }

  lemma Reaching(signal: set<nat>, blocked: set<nat>)
    ensures Notified(signal, blocked) <==> signal - (blocked - {SIGKILL, SIGSTOP}) != {}
  {
    var reaching := signal - (blocked - {SIGKILL, SIGSTOP});
    if reaching != {} {
      var k :| k in reaching;
      assert k in signal;
    }
    if Notified(signal, blocked) {
      var k :| k in signal && (k !in blocked || k == SIGKILL || k == SIGSTOP);
      assert k in reaching;
    }
  }

  /** One tick of credit used up by the running task. */
  function Charged(t: Table, current: nat): Table
    requires current < NR_TASKS
  {
    if t[current].Some? then
      t[current := Some(t[current].value.(counter := if Credit(t, current) - 1 > 0 then Credit(t, current) - 1 else 0))]
    else t
  }

  /** The choice is determined by the table. */
  /** It is a running task with most credit, the highest-numbered of those, or 0 if there is none. */
  lemma BestIs(t: Table, next: nat)
    requires Best(t, next)
    ensures next == 0 <==> forall i: nat | 0 < i < NR_TASKS && t[i].Some? :: t[i].value.state != Running
    ensures next != 0 ==> next < NR_TASKS && t[next].Some? && t[next].value.state == Running
    ensures next != 0 ==> forall i: nat | 0 < i < NR_TASKS && t[i].Some? && t[i].value.state == Running ::
      && t[i].value.counter <= t[next].value.counter
      && (i > next ==> t[i].value.counter < t[next].value.counter)
  {
    if next == 0 {
      forall i: nat | 0 < i < NR_TASKS && t[i].Some? ensures t[i].value.state != Running { assert !Runnable(t, i); }
    } else {
      forall i: nat | 0 < i < NR_TASKS && t[i].Some? && t[i].value.state == Running
        ensures t[i].value.counter <= t[next].value.counter
        ensures i > next ==> t[i].value.counter < t[next].value.counter
      {
        assert Runnable(t, i);
      }
    }
  }

  lemma BestUnique(t: Table, a: nat, b: nat)
    requires Best(t, a) && Best(t, b)
    ensures a == b
  {
  }

  function WithState(t: Table, i: nat, how: TaskState): Table {
    if i < NR_TASKS && t[i].Some? then t[i := Some(t[i].value.(state := how))] else t
  }

  datatype System = System(t: Table, current: nat)

  datatype Event = UserTick | Block(how: TaskState) | Wake(u: nat)

  /** A timer tick in user mode, the running task going to sleep, or a task being woken. */
  ghost predicate Move(s: System, ev: Event, s': System) {
    s.current < NR_TASKS && s'.current < NR_TASKS && Credits(s.t) &&
    match ev
    case UserTick =>
      s.t[s.current].Some? &&
      if Credit(s.t, s.current) > 1 then s' == System(Charged(s.t, s.current), s.current)
      else exists j: nat :: Scheduled(Charged(s.t, s.current), s'.t, j, s'.current)
    case Block(how) =>
      s.t[s.current].Some? && how != Running &&
      exists j: nat :: Scheduled(WithState(s.t, s.current, how), s'.t, j, s'.current)
    case Wake(u) =>
      u < NR_TASKS && s.t[u].Some? && s' == s.(t := WithState(s.t, u, Running))
  }

  /** Task w is runnable with credit, and has not been chosen. */
  predicate Waiting(s: System, w: nat) {
    Runnable(s.t, w) && Credit(s.t, w) > 0 && s.current != w && s.current < NR_TASKS
  }

  function Sum(t: Table, n: nat): int
    requires n <= NR_TASKS
  {
    if n == 0 then 0 else Credit(t, n - 1) + Sum(t, n - 1)
  }

  lemma {:induction false} SumSame(t: Table, t': Table, n: nat)
    requires n <= NR_TASKS && forall i: nat | i < n :: Credit(t', i) == Credit(t, i)
    ensures Sum(t', n) == Sum(t, n)
  {
    if n > 0 { SumSame(t, t', n - 1); }
  }

  lemma {:induction false} SumCharged(t: Table, c: nat, n: nat)
    requires n <= NR_TASKS && c < NR_TASKS && Credits(t)
    ensures Sum(Charged(t, c), n) == Sum(t, n) - if c < n && Credit(t, c) > 0 then 1 else 0
  {
    if n > 0 {
      if t[c].Some? { assert CreditOk(t[c].value); }
      SumCharged(t, c, n - 1);
    }
  }

  lemma {:induction false} SumNat(t: Table, n: nat)
    requires n <= NR_TASKS && Credits(t)
    ensures Sum(t, n) >= 0
  {
    if n > 0 {
      if t[n - 1].Some? { assert CreditOk(t[n - 1].value); }
      SumNat(t, n - 1);
    }
  }

  /** While a runnable task has credit schedule does not recharge: all credits stay, and the
      chosen task has some. */
  lemma NoRecharge(t: Table, t': Table, j: nat, next: nat, w: nat)
    requires Credits(t) && Scheduled(t, t', j, next) && Runnable(t, w) && Credit(t, w) > 0
    ensures Credits(t') && Runnable(t', w) && (forall i: nat | i < NR_TASKS :: Credit(t', i) == Credit(t, i))
    ensures next != 0 && next < NR_TASKS && Credit(t', next) > 0 && t'[next].Some?
  {
    var m: Table :| AllChecked(t, m, j) && (if Exhausted(m) then AllRecharged(m, t') else t' == m) && Best(t', next);
    CheckedCredits(t, m, j);
    assert m[w].Some? && CheckedTo(t[w].value, m[w].value, j);
    assert Runnable(m, w) && Credit(m, w) == Credit(t, w);
    forall i: nat | i < NR_TASKS && t'[i].Some? ensures CreditOk(t'[i].value)
    {
      assert t[i].Some? && CreditOk(t[i].value);
    }
    forall i: nat | i < NR_TASKS ensures Credit(t', i) == Credit(t, i) {
      assert Credit(m, i) == Credit(t, i);
    }
  }

  lemma ChargedCredits(t: Table, c: nat)
    requires Credits(t) && c < NR_TASKS
    ensures Credits(Charged(t, c))
  {
    forall i: nat | i < NR_TASKS && Charged(t, c)[i].Some? ensures CreditOk(Charged(t, c)[i].value) {
      assert t[i].Some? && CreditOk(t[i].value);
    }
  }

  lemma WithStateCredits(t: Table, i: nat, how: TaskState)
    requires Credits(t)
    ensures Credits(WithState(t, i, how)) && forall k: nat :: Credit(WithState(t, i, how), k) == Credit(t, k)
  {
    var t1 := WithState(t, i, how);
    forall k: nat | k < NR_TASKS && t1[k].Some? ensures CreditOk(t1[k].value)
    {
      assert t[k].Some? && CreditOk(t[k].value);
    }
  }

  /** What an event may do to credits while w waits: w keeps its own; a tick costs one unit
      of somebody's, unless the running task had none left. */
  ghost predicate CreditStep(s: System, tick: bool, s': System, w: nat) {
    && Credits(s'.t) && Runnable(s'.t, w) && Credit(s'.t, w) == Credit(s.t, w)
    && Sum(s'.t, NR_TASKS) == Sum(s.t, NR_TASKS) - (if tick && Credit(s.t, s.current) > 0 then 1 else 0)
  }

  lemma TickWhileWaiting(s: System, s': System, w: nat)
    requires Waiting(s, w) && Move(s, UserTick, s')
    ensures CreditStep(s, true, s', w) && Credit(s'.t, s'.current) > 0
  {
    var t1 := Charged(s.t, s.current);
    ChargedCredits(s.t, s.current);
    SumCharged(s.t, s.current, NR_TASKS);
    if Credit(s.t, s.current) <= 1 {
      var j: nat :| Scheduled(t1, s'.t, j, s'.current);
      NoRecharge(t1, s'.t, j, s'.current, w);
      SumSame(t1, s'.t, NR_TASKS);
    }
  }

  lemma BlockWhileWaiting(s: System, how: TaskState, s': System, w: nat)
    requires Waiting(s, w) && Move(s, Block(how), s')
    ensures CreditStep(s, false, s', w) && Credit(s'.t, s'.current) > 0
  {
    var t1 := WithState(s.t, s.current, how);
    WithStateCredits(s.t, s.current, how);
    var j: nat :| Scheduled(t1, s'.t, j, s'.current);
    NoRecharge(t1, s'.t, j, s'.current, w);
    SumSame(s.t, s'.t, NR_TASKS);
  }

  /** After a tick or a block, a task with credit is running. */
  lemma WaitingStep(s: System, ev: Event, s': System, w: nat)
    requires Waiting(s, w) && Move(s, ev, s')
    ensures CreditStep(s, ev.UserTick?, s', w)
    ensures Credit(s.t, s.current) > 0 || ev.UserTick? ==> Credit(s'.t, s'.current) > 0
  {
    match ev
    case UserTick => TickWhileWaiting(s, s', w);
    case Block(how) => BlockWhileWaiting(s, how, s', w);
    case Wake(u) =>
      WithStateCredits(s.t, u, Running);
      SumSame(s.t, s'.t, NR_TASKS);
  }

  ghost predicate IsRun(ss: seq<System>, evs: seq<Event>) {
    |ss| == |evs| + 1 && forall i | 0 <= i < |evs| :: Move(ss[i], evs[i], ss[i + 1])
  }

  function Ticks(evs: seq<Event>): nat {
    if evs == [] then 0 else (if evs[0].UserTick? then 1 else 0) + Ticks(evs[1..])
  }

  /** Bounded waiting: however tasks block and wake, a runnable task with credit is chosen
      before the clock has ticked once more than all credits together, and before any recharge. */
  lemma {:induction false} BoundedWaiting(ss: seq<System>, evs: seq<Event>, w: nat)
    requires IsRun(ss, evs) && Credits(ss[0].t) && forall i | 0 <= i < |ss| :: Waiting(ss[i], w)
    ensures Ticks(evs) <= Sum(ss[0].t, NR_TASKS) + if Credit(ss[0].t, ss[0].current) > 0 then 0 else 1
    ensures Credit(ss[|evs|].t, w) == Credit(ss[0].t, w)
    decreases |evs|
  {
    if evs == [] {
      SumNat(ss[0].t, NR_TASKS);
    } else {
      assert Move(ss[0], evs[0], ss[1]);
      WaitingStep(ss[0], evs[0], ss[1], w);
      assert IsRun(ss[1..], evs[1..]) by {
        forall i | 0 <= i < |evs| - 1 ensures Move(ss[1..][i], evs[1..][i], ss[1..][i + 1]) {
          assert Move(ss[i + 1], evs[i + 1], ss[i + 2]);
        }
      }
      BoundedWaiting(ss[1..], evs[1..], w);
    }
  }
}
