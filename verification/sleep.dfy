/** __sleep_on and wake_up of kernel/sched.c. A wait queue is one pointer; the rest of the
    list lives in the `tmp` variables of the sleeping tasks' kernel stacks. */
module WaitQueues {
  import opened Wrappers

  datatype TaskState = Running | Interruptible | Uninterruptible | Zombie | Stopped

  /** head is *p, tmp the saved local of every task inside __sleep_on(p), state the task
      states. */
  datatype Queue = Queue(head: Option<nat>, tmp: map<nat, Option<nat>>, state: map<nat, TaskState>)

  datatype Step =
    | Enter(t: nat, how: TaskState)   // __sleep_on up to its first schedule()
    | Resume(t: nat)                  // schedule() returns in t, which runs to its next schedule() or leaves
    | Wake                            // wake_up(p)
    | Signal(t: nat)                  // schedule() finds a signal for an interruptible sleeper
    | Other(t: nat, s: TaskState)     // anything a task outside the queue does to its own state

  predicate Enabled(q: Queue, step: Step) {
    match step
    case Enter(t, how) => t !in q.tmp && (how == Interruptible || how == Uninterruptible)
    case Resume(t) => t in q.tmp && t in q.state && q.state[t] == Running
    case Wake => true
    case Signal(t) => t in q.state && q.state[t] == Interruptible
    case Other(t, _) => t !in q.tmp
  }

  function SetRunning(q: Queue, t: Option<nat>): map<nat, TaskState> {
    if t.Some? then q.state[t.value := Running] else q.state
  }

  /** What t does when schedule() returns in it. */
  function Resumed(q: Queue, t: nat): Queue
    requires t in q.tmp
  {
    if q.head.Some? && q.head != Some(t) then
      q.(state := SetRunning(q, q.head)[t := Uninterruptible])
    else
      Queue(q.tmp[t], q.tmp - {t}, SetRunning(q, q.tmp[t]))
  }

  function Next(q: Queue, step: Step): Queue
    requires Enabled(q, step)
  {
    match step
    case Enter(t, how) => Queue(Some(t), q.tmp[t := q.head], q.state[t := how])
    case Resume(t) => Resumed(q, t)
    case Wake => q.(state := SetRunning(q, q.head))
    case Signal(t) => q.(state := q.state[t := Running])
    case Other(t, s) => q.(state := q.state[t := s])
  }

  function First(c: seq<nat>): Option<nat> {
    if c == [] then None else Some(c[0])
  }

  /** The queue is the acyclic list c, from the last task that went to sleep to the first. */
  ghost predicate IsChain(q: Queue, c: seq<nat>) {
    && q.head == First(c) && Distinct(c)
    && (forall t :: t in q.tmp <==> t in c)
    && (forall i | 0 <= i < |c| :: q.tmp[c[i]] == First(c[i + 1..]))
  }

  ghost predicate Good(q: Queue) {
    exists c :: IsChain(q, c)
  }

  /** The chain after a step: pushed in front, popped from the front, or the same. */
  function ChainAfter(q: Queue, c: seq<nat>, step: Step): seq<nat> {
    match step
    case Enter(t, _) => [t] + c
    case Resume(t) => if q.head == Some(t) && c != [] then c[1..] else c
    case _ => c
  }

  lemma PushChain(q: Queue, c: seq<nat>, t: nat, how: TaskState)
    requires IsChain(q, c) && Enabled(q, Enter(t, how))
    ensures IsChain(Next(q, Enter(t, how)), [t] + c)
  {
    var q', c' := Next(q, Enter(t, how)), [t] + c;
    assert c'[1..] == c;
    forall i | 0 <= i < |c'| ensures q'.tmp[c'[i]] == First(c'[i + 1..]) {
      if i > 0 {
        assert c'[i] == c[i - 1] && c'[i + 1..] == c[i..];
        assert c[i - 1] in c;
      }
    }
  }

  lemma TailMembers(c: seq<nat>, t: nat)
    requires c != [] && Distinct(c)
    ensures t in c[1..] <==> t in c && t != c[0]
  {
    assert c == [c[0]] + c[1..];
  }

  lemma PopChain(q: Queue, c: seq<nat>)
    requires IsChain(q, c) && c != []
    ensures IsChain(Queue(q.tmp[c[0]], q.tmp - {c[0]}, q.state), c[1..])
  {
    var q', c' := Queue(q.tmp[c[0]], q.tmp - {c[0]}, q.state), c[1..];
    forall t ensures t in q'.tmp <==> t in c' { TailMembers(c, t); }
    forall i | 0 <= i < |c'| ensures q'.tmp[c'[i]] == First(c'[i + 1..]) {
      assert c'[i] in c' && c'[i + 1..] == c[i + 2..];
    }
  }

  /** Every step keeps the list acyclic and complete. Sleepers leave from the head only, and
      while anyone sleeps *p is not NULL, so the warning cannot appear. */
  lemma StepKeepsChain(q: Queue, c: seq<nat>, step: Step)
    requires IsChain(q, c) && Enabled(q, step)
    ensures IsChain(Next(q, step), ChainAfter(q, c, step))
    ensures step.Resume? ==> q.head.Some? && (step.t !in Next(q, step).tmp <==> q.head == Some(step.t))
  {
    match step
    case Enter(t, how) => PushChain(q, c, t, how);
    case Resume(t) => if q.head == Some(t) { PopChain(q, c); }
    case _ =>
  }

  predicate IsRunning(q: Queue, t: nat) {
    t in q.state && q.state[t] == Running
  }

  /** Somebody in the queue has been woken. */
  ghost predicate Awake(q: Queue) {
    exists t :: t in q.tmp && IsRunning(q, t)
  }

  /** Once a sleeper is runnable, some sleeper stays runnable until the queue is empty. */
  lemma StepKeepsAwake(q: Queue, c: seq<nat>, step: Step)
    requires IsChain(q, c) && Enabled(q, step) && Awake(q)
    ensures Awake(Next(q, step)) || Next(q, step).tmp == map[]
  {
    var w :| w in q.tmp && IsRunning(q, w);
    if step.Resume? {
      ResumeWakes(q, c, step.t);
    } else {
      assert w in Next(q, step).tmp && IsRunning(Next(q, step), w);
    }
  }

  /** A sleeper that has had its turn leaves the head runnable, or the queue empty. */
  lemma ResumeWakes(q: Queue, c: seq<nat>, t: nat)
    requires IsChain(q, c) && Enabled(q, Resume(t))
    ensures var q', c' := Next(q, Resume(t)), ChainAfter(q, c, Resume(t));
            if c' == [] then q'.tmp == map[] else c'[0] in q'.tmp && IsRunning(q', c'[0])
  {
    var q', c' := Next(q, Resume(t)), ChainAfter(q, c, Resume(t));
    StepKeepsChain(q, c, Resume(t));
    if c' == [] {
      assert forall x :: x !in q'.tmp;
    } else {
      assert c'[0] in c';
      if q.head == Some(t) { assert q.tmp[c[0]] == First(c[1..]); }
    }
  }

  /** The step makes the sleeper t runnable: wake_up with t on top, the turn of another sleeper that
      finds t on top or leaves t on top, or a signal to t. */
  predicate Wakes(q: Queue, q': Queue, step: Step, t: nat) {
    match step
    case Wake => q.head == Some(t)
    case Resume(u) => u != t && (q.head == Some(t) || q'.head == Some(t))
    case Signal(u) => u == t && t in q.state && q.state[t] == Interruptible
    case _ => false
  }

  /** Who in the queue is runnable after a step: a sleeper that was, unless it has had its turn and
      stays, and one the step wakes. A newcomer is not. */
  lemma RunnableIff(q: Queue, c: seq<nat>, step: Step, t: nat)
    requires IsChain(q, c) && Enabled(q, step) && t in Next(q, step).tmp
    ensures IsRunning(Next(q, step), t) <==>
      (t in q.tmp && IsRunning(q, t) && step != Resume(t)) || Wakes(q, Next(q, step), step, t)
  {
    if step.Resume? {
      assert step.t in c;
      assert q.head.Some?;
    }
  }

  /** Going to sleep, or back to sleep, is recorded in the task's state, and no other task's state
      is touched but that of the one left on top. */
  lemma SleepState(q: Queue, c: seq<nat>, step: Step)
    requires IsChain(q, c) && Enabled(q, step)
    ensures step.Enter? ==> Next(q, step).state == q.state[step.t := step.how] && !IsRunning(Next(q, step), step.t)
    ensures step.Resume? && q.head != Some(step.t) ==>
      q.head.Some? && Next(q, step).state == q.state[q.head.value := Running][step.t := Uninterruptible]
    ensures step.Resume? && q.head == Some(step.t) ==>
      Next(q, step).state == if |c| > 1 then q.state[c[1] := Running] else q.state
  {
    StepKeepsChain(q, c, step);
  }

  /** Over any run in which nothing wakes it, a sleeper stays in the queue and is not runnable. */
  lemma {:induction false} StaysAsleep(q: Queue, c: seq<nat>, steps: seq<Step>, t: nat)
    requires IsChain(q, c) && t in q.tmp && !IsRunning(q, t) && Run(q, steps).Some? && NeverWoken(q, steps, t)
    ensures t in Run(q, steps).value.tmp && !IsRunning(Run(q, steps).value, t)
    decreases |steps|
  {
    if steps != [] {
      var q1 := Next(q, steps[0]);
      StepKeepsChain(q, c, steps[0]);
      if t in q1.tmp { RunnableIff(q, c, steps[0], t); }
      StaysAsleep(q1, ChainAfter(q, c, steps[0]), steps[1..], t);
    }
  }

  predicate NeverWoken(q: Queue, steps: seq<Step>, t: nat)
    decreases |steps|
  {
    steps == [] || (Enabled(q, steps[0]) && !Wakes(q, Next(q, steps[0]), steps[0], t) &&
      NeverWoken(Next(q, steps[0]), steps[1..], t))
  }

  function Run(q: Queue, steps: seq<Step>): Option<Queue>
    decreases |steps|
  {
    if steps == [] then Some(q)
    else if !Enabled(q, steps[0]) then None
    else Run(Next(q, steps[0]), steps[1..])
  }

  /** The queue was empty at some point of the run. */
  predicate Emptied(q: Queue, steps: seq<Step>)
    decreases |steps|
  {
    q.tmp == map[] || (steps != [] && Enabled(q, steps[0]) && Emptied(Next(q, steps[0]), steps[1..]))
  }

  /** No lost wake-up: after a wake_up on a queue with sleepers, whatever happens next, some
      sleeper is runnable for as long as the queue has not been empty. */
  lemma {:induction false} NoLostWakeup(q: Queue, c: seq<nat>, steps: seq<Step>)
    requires IsChain(q, c) && Awake(q) && Run(q, steps).Some?
    ensures Good(Run(q, steps).value)
    ensures Awake(Run(q, steps).value) || Emptied(q, steps)
    decreases |steps|
  {
    if steps == [] {
      assert IsChain(q, c);
    } else {
      StepKeepsChain(q, c, steps[0]);
      StepKeepsAwake(q, c, steps[0]);
      var q1 := Next(q, steps[0]);
      if Awake(q1) {
        NoLostWakeup(q1, ChainAfter(q, c, steps[0]), steps[1..]);
      } else {
        RunKeepsGood(q1, ChainAfter(q, c, steps[0]), steps[1..]);
        assert Emptied(q1, steps[1..]);
      }
    }
  }

  lemma {:induction false} RunKeepsGood(q: Queue, c: seq<nat>, steps: seq<Step>)
    requires IsChain(q, c) && Run(q, steps).Some?
    ensures Good(Run(q, steps).value)
    decreases |steps|
  {
    if steps == [] {
      assert IsChain(q, c);
    } else {
      StepKeepsChain(q, c, steps[0]);
      RunKeepsGood(Next(q, steps[0]), ChainAfter(q, c, steps[0]), steps[1..]);
    }
  }

  lemma WakeMakesAwake(q: Queue, c: seq<nat>)
    requires IsChain(q, c) && c != []
    ensures Awake(Next(q, Wake))
  {
    assert c[0] in Next(q, Wake).tmp && IsRunning(Next(q, Wake), c[0]);
  }

  /** Sleepers behind the head that are runnable. */
  ghost function Behind(q: Queue): set<nat> {
    set t | t in q.tmp && IsRunning(q, t) && q.head != Some(t)
  }

  ghost function Work(q: Queue): nat {
    |q.tmp| + |Behind(q)|
  }

  /** Every turn of a woken sleeper makes progress: it leaves, or it hands the wake-up to the
      head and goes back to sleep. */
  lemma ResumeProgress(q: Queue, c: seq<nat>, t: nat)
    requires IsChain(q, c) && Enabled(q, Resume(t))
    ensures Work(Next(q, Resume(t))) < Work(q)
  {
    var q' := Next(q, Resume(t));
    StepKeepsChain(q, c, Resume(t));
    if q.head == Some(t) {
      assert q'.tmp.Keys == q.tmp.Keys - {t};
      assert |q'.tmp| == |q'.tmp.Keys| && |q.tmp| == |q.tmp.Keys|;
      assert Behind(q') <= Behind(q);
      Smaller(Behind(q'), Behind(q));
    } else {
      assert t in Behind(q);
      assert Behind(q') <= Behind(q) - {t};
      Smaller(Behind(q'), Behind(q) - {t});
    }
  }

  lemma {:induction false} Smaller(a: set<nat>, b: set<nat>)
    requires a <= b
    ensures |a| <= |b|
  {
    if a != {} {
      var x :| x in a;
      Smaller(a - {x}, b - {x});
    }
  }

  lemma NothingToResume(q: Queue, steps: seq<Step>)
    requires q.tmp == map[] && Run(q, steps).Some? && OnlyResumes(steps)
    ensures steps == []
  {
  }

  predicate OnlyResumes(steps: seq<Step>) {
    forall i | 0 <= i < |steps| :: steps[i].Resume?
  }

  /** Without newcomers the queue drains: woken sleepers take at most Work(q) turns, and when
      none of them can take another the queue is empty. */
  lemma {:induction false} Drains(q: Queue, c: seq<nat>, steps: seq<Step>)
    requires IsChain(q, c) && Awake(q) && Run(q, steps).Some? && OnlyResumes(steps)
    ensures |steps| + Work(Run(q, steps).value) <= Work(q)
    ensures (forall t :: !Enabled(Run(q, steps).value, Resume(t))) ==> Run(q, steps).value.tmp == map[]
    decreases |steps|
  {
    if steps == [] {
      var w :| w in q.tmp && IsRunning(q, w);
      assert Enabled(q, Resume(w));
    } else {
      var t := steps[0].t;
      ResumeProgress(q, c, t);
      StepKeepsChain(q, c, steps[0]);
      StepKeepsAwake(q, c, steps[0]);
      var q1 := Next(q, steps[0]);
      if Awake(q1) {
        Drains(q1, ChainAfter(q, c, steps[0]), steps[1..]);
      } else {
        NothingToResume(q1, steps[1..]);
      }
    }
  }

  /** struct task_struct * with the stacks of its sleepers, as the code updates it. */
  class WaitQueue {
    var head: Option<nat>
    var tmp: map<nat, Option<nat>>
    var state: map<nat, TaskState>
    ghost var chain: seq<nat>

    ghost function Abs(): Queue
      reads this
    {
      Queue(head, tmp, state)
    }

    ghost predicate Valid()
      reads this
    {
      IsChain(Abs(), chain)
    }

    constructor ()
      ensures Valid() && chain == []
    {
      head, tmp, state, chain := None, map[], map[], [];
    }

    /** __sleep_on up to its first schedule(). */
    method SleepOn(current: nat, how: TaskState)
      requires Valid() && Enabled(Abs(), Enter(current, how))
      modifies this
      ensures Valid() && Abs() == Next(old(Abs()), Enter(current, how)) && chain == [current] + old(chain)
      ensures head == Some(current) && tmp == old(tmp)[current := old(head)] && state == old(state)[current := how]
      ensures !Enabled(Abs(), Resume(current))
    {
      PushChain(Abs(), chain, current, how);
      ghost var q' := Next(Abs(), Enter(current, how));
      tmp := tmp[current := head];
      head := Some(current);
      state := state[current := how];
      chain := [current] + chain;
      assert Abs() == q';
    }

    /** __sleep_on from a return of schedule() to the next one, or to its end. `warned` is
        its "*P = NULL" message. */
    method Continue(current: nat) returns (left: bool, warned: bool)
      requires Valid() && Enabled(Abs(), Resume(current))
      modifies this
      ensures Valid() && Abs() == Next(old(Abs()), Resume(current)) && !warned
      ensures left <==> old(chain)[0] == current
      ensures chain == if left then old(chain)[1..] else old(chain)
      ensures left ==>
        && head == old(tmp)[current] && current !in tmp
        && state == if head.Some? then old(state)[head.value := Running] else old(state)
      ensures !left ==>
        && head == old(head) && head.Some? && tmp == old(tmp)
        && state == old(state)[head.value := Running][current := Uninterruptible]
    {
      StepKeepsChain(Abs(), chain, Resume(current));
      chain := ChainAfter(Abs(), chain, Resume(current));
      if head.Some? && head != Some(current) {
        state := state[head.value := Running];
        state := state[current := Uninterruptible];
        return false, false;
      }
      warned := head.None?;
      head := tmp[current];
      if head.Some? { state := state[head.value := Running]; }
      tmp := tmp - {current};
      left := true;
    }

    /** wake_up. */
    method WakeUp()
      requires Valid()
      modifies this
      ensures Valid() && Abs() == Next(old(Abs()), Wake) && chain == old(chain)
      ensures head == old(head) && tmp == old(tmp)
      ensures state == if head.Some? then old(state)[head.value := Running] else old(state)
      ensures chain != [] ==> Awake(Abs())
    {
      if chain != [] { WakeMakesAwake(Abs(), chain); }
      if head.Some? { state := state[head.value := Running]; }
    }
  }
}
