/** The buffer cache as a protocol between processes and the disk. Processes run without
    interruption between sleep points, so a run is a sequence of the steps below, in any order
    the guards allow. */
module BufferProtocol {
  import opened Wrappers

  type Data = seq<nat>

  datatype Dir = Read | Write

  /** b_lock together with what the lock is held for: a request still waiting for a free
      slot, or one that the disk is working on. */
  datatype Lock = Unlocked | Pending(dir: Dir) | InFlight(dir: Dir)

  /** `users` are the processes counted by b_count. */
  datatype Buffer = Buffer(dev: nat, block: nat, users: multiset<nat>, dirty: bool, upto: bool, lock: Lock, data: Data)

  datatype State = State(bufs: seq<Buffer>, disk: map<(nat, nat), Data>)

  datatype Step =
    | Hold(p: nat, b: nat)                              // get_hash_table: b_count++
    | Drop(p: nat, b: nat)                              // brelse and the like: b_count--
    | Reassign(p: nat, b: nat, dev: nat, block: nat)    // the last lines of getblk
    | Lock(b: nat, dir: Dir)                            // make_request up to its search for a slot
    | Start(b: nat)                                     // add_request
    | FinishRead(b: nat)                                // end_request
    | FinishWrite(b: nat, written: Data)
    | Modify(p: nat, b: nat, data: Data)                // a holder changes the data and sets b_dirt
    | Overwrite(p: nat, b: nat, data: Data)             // new_block fills a block from nothing
    | Discard(p: nat, b: nat)                           // free_block forgets a block's contents

  function Disk(s: State, dev: nat, block: nat): Data {
    if (dev, block) in s.disk then s.disk[(dev, block)] else []
  }

  predicate IsBlock(x: Buffer, dev: nat, block: nat) {
    x.dev == dev && x.block == block
  }

  predicate NotCached(s: State, dev: nat, block: nat) {
    forall i | 0 <= i < |s.bufs| :: !IsBlock(s.bufs[i], dev, block)
  }

  /** When a step may be taken. A write still in progress may carry any mixture of old and
      new data if the buffer was modified meanwhile; it is dirty again then. */
  predicate Enabled(s: State, step: Step) {
    step.b < |s.bufs| &&
    var x := s.bufs[step.b];
    match step
    case Hold(_, _) => x.dev != 0
    case Drop(p, _) => p in x.users
    case Reassign(_, _, dev, block) =>
      dev != 0 && x.users == multiset{} && x.lock == Unlocked && !x.dirty && NotCached(s, dev, block)
    case Lock(_, dir) => x.dev != 0 && x.lock == Unlocked && (if dir.Read? then !x.upto else x.dirty)
    case Start(_) => x.lock.Pending?
    case FinishRead(_) => x.lock == InFlight(Read)
    case FinishWrite(_, written) => x.lock == InFlight(Write) && (x.dirty || written == x.data)
    case Modify(p, _, _) => p in x.users && x.upto
    case Overwrite(p, _, _) => x.users == multiset{p} && x.lock == Unlocked
    case Discard(p, _) => x.users == multiset{p} && x.lock == Unlocked
  }

  function Changed(s: State, step: Step): Buffer
    requires step.b < |s.bufs|
  {
    var x := s.bufs[step.b];
    match step
    case Hold(p, _) => x.(users := x.users + multiset{p})
    case Drop(p, _) => x.(users := x.users - multiset{p})
    case Reassign(p, _, dev, block) =>
      x.(dev := dev, block := block, users := multiset{p}, dirty := false, upto := false)
    case Lock(_, dir) => x.(lock := Pending(dir))
    case Start(_) =>
      (match x.lock
       case Pending(Write) => x.(lock := InFlight(Write), dirty := false)
       case Pending(Read) => x.(lock := InFlight(Read))
       case _ => x)
    case FinishRead(_) => x.(lock := Unlocked, upto := true, data := Disk(s, x.dev, x.block))
    case FinishWrite(_, _) => x.(lock := Unlocked, upto := true)
    case Modify(_, _, data) => x.(data := data, dirty := true)
    case Overwrite(_, _, data) => x.(data := data, dirty := true, upto := true)
    case Discard(_, _) => x.(dirty := false, upto := false)
  }

  function Next(s: State, step: Step): State
    requires Enabled(s, step)
  {
    var x := s.bufs[step.b];
    State(s.bufs[step.b := Changed(s, step)],
          if step.FinishWrite? then s.disk[(x.dev, x.block) := step.written] else s.disk)
  }

  predicate Reading(x: Buffer) {
    x.lock == Pending(Read) || x.lock == InFlight(Read)
  }

  /** What holds of every single buffer at every moment. */
  predicate BufferOk(s: State, x: Buffer) {
    && (x.dirty ==> x.upto)
    && (Reading(x) ==> !x.upto)
    && (x.lock == Pending(Write) ==> x.dirty)
    && (x.lock == InFlight(Write) ==> x.upto)
    && (x.dev == 0 ==> !x.upto && x.users == multiset{} && x.lock == Unlocked)
    && (x.upto && !x.dirty && x.lock != InFlight(Write) ==> x.data == Disk(s, x.dev, x.block))
  }

  /** No block is in two buffers. */
  ghost predicate Unique(s: State) {
    forall i: nat, j: nat | i < |s.bufs| && j < |s.bufs| && i != j ::
      s.bufs[i].dev != 0 ==> !IsBlock(s.bufs[j], s.bufs[i].dev, s.bufs[i].block)
  }

  ghost predicate Inv(s: State) {
    Unique(s) && forall i: nat | i < |s.bufs| :: BufferOk(s, s.bufs[i])
  }

  lemma StepInv(s: State, step: Step)
    requires Inv(s) && Enabled(s, step)
    ensures Inv(Next(s, step))
  {
    var s' := Next(s, step);
    assert BufferOk(s, s.bufs[step.b]);
    ChangedOk(s, step);
    forall i: nat | i < |s'.bufs| ensures BufferOk(s', s'.bufs[i]) {
      assert BufferOk(s, s.bufs[i]);
      if i != step.b && s.bufs[step.b].dev != 0 {
        assert !IsBlock(s.bufs[i], s.bufs[step.b].dev, s.bufs[step.b].block);
      }
    }
    forall i: nat, j: nat | i < |s.bufs| && j < |s.bufs| && i != j && s'.bufs[i].dev != 0
      ensures !IsBlock(s'.bufs[j], s'.bufs[i].dev, s'.bufs[i].block)
    {
      if s.bufs[i].dev != 0 { assert !IsBlock(s.bufs[j], s.bufs[i].dev, s.bufs[i].block); }
      assert step.Reassign? ==> !IsBlock(s.bufs[i], step.dev, step.block) && !IsBlock(s.bufs[j], step.dev, step.block);
    }
  }

  lemma ChangedOk(s: State, step: Step)
    requires Enabled(s, step) && BufferOk(s, s.bufs[step.b])
    ensures BufferOk(Next(s, step), Changed(s, step))
  {
    match step {
      case Hold(_, _) =>
      case Drop(_, _) =>
      case Reassign(_, _, _, _) =>
      case Lock(_, _) =>
      case Start(_) =>
      case FinishRead(_) =>
      case FinishWrite(_, _) =>
      case Modify(_, _, _) =>
      case Overwrite(_, _, _) =>
      case Discard(_, _) =>
    }
  }

  /** A buffer that is counted or locked keeps its device and block; one that loses them was
      unreferenced, unlocked and clean. */
  lemma IdentityStable(s: State, step: Step, i: nat)
    requires Inv(s) && Enabled(s, step) && i < |s.bufs|
    requires !IsBlock(Next(s, step).bufs[i], s.bufs[i].dev, s.bufs[i].block)
    ensures step.Reassign? && step.b == i
    ensures s.bufs[i].users == multiset{} && s.bufs[i].lock == Unlocked && !s.bufs[i].dirty
    ensures s.bufs[i].upto ==> s.bufs[i].data == Disk(s, s.bufs[i].dev, s.bufs[i].block)
  {
    assert BufferOk(s, s.bufs[i]);
  }

  /** What a block logically contains: its buffer if that is up to date, else the disk. */
  ghost function Content(s: State, dev: nat, block: nat): Data {
    if exists i: nat :: CachedAt(s, dev, block, i) then
      var i: nat :| CachedAt(s, dev, block, i);
      s.bufs[i].data
    else Disk(s, dev, block)
  }

  predicate CachedAt(s: State, dev: nat, block: nat, i: nat) {
    i < |s.bufs| && IsBlock(s.bufs[i], dev, block) && s.bufs[i].upto
  }

  lemma OneCopy(s: State, dev: nat, block: nat, i: nat)
    requires Inv(s) && dev != 0 && i < |s.bufs| && IsBlock(s.bufs[i], dev, block)
    ensures forall j: nat | j < |s.bufs| && IsBlock(s.bufs[j], dev, block) :: j == i
  {
  }

  lemma ContentCached(s: State, dev: nat, block: nat, i: nat)
    requires Inv(s) && dev != 0 && CachedAt(s, dev, block, i)
    ensures Content(s, dev, block) == s.bufs[i].data
  {
    OneCopy(s, dev, block, i);
  }

  /** The block whose logical contents the step writes, and what it becomes. Freeing a block
      gives up its contents. */
  predicate Writes(s: State, step: Step, dev: nat, block: nat) {
    step.b < |s.bufs| && (step.Modify? || step.Overwrite? || step.Discard?) && IsBlock(s.bufs[step.b], dev, block)
  }

  /** The cache is invisible: reading, writing back, evicting and holding blocks change no
      block's contents, and a modification changes one block to the new data. */
  lemma StepContent(s: State, step: Step, dev: nat, block: nat)
    requires Inv(s) && Enabled(s, step) && dev != 0
    ensures !Writes(s, step, dev, block) ==> Content(Next(s, step), dev, block) == Content(s, dev, block)
    ensures Writes(s, step, dev, block) && !step.Discard? ==> Content(Next(s, step), dev, block) == step.data
  {
    var s' := Next(s, step);
    StepInv(s, step);
    var x := s.bufs[step.b];
    assert BufferOk(s, x);
    assert Writes(s, step, dev, block) && !step.Discard? ==> CachedAt(s', dev, block, step.b);
    if i: nat :| CachedAt(s', dev, block, i) {
      ContentCached(s', dev, block, i);
      OneCopy(s', dev, block, i);
      if CachedAt(s, dev, block, i) {
        ContentCached(s, dev, block, i);
      } else if !Writes(s, step, dev, block) {
        assert step.FinishRead? && i == step.b;
        OneCopy(s, dev, block, i);
        assert forall j: nat :: !CachedAt(s, dev, block, j);
      }
    } else if i: nat :| CachedAt(s, dev, block, i) {
      ContentCached(s, dev, block, i);
      OneCopy(s, dev, block, i);
      assert !CachedAt(s', dev, block, i);
      assert i == step.b;
      assert BufferOk(s, s.bufs[i]);
    } else {
      NotCachedStep(s, step, dev, block);
    }
  }

  /** The disk changes only under a buffer that holds the block. */
  lemma NotCachedStep(s: State, step: Step, dev: nat, block: nat)
    requires Inv(s) && Enabled(s, step) && dev != 0 && forall i: nat :: !CachedAt(s, dev, block, i)
    ensures Disk(Next(s, step), dev, block) == Disk(s, dev, block)
  {
    if step.FinishWrite? {
      assert BufferOk(s, s.bufs[step.b]);
      assert !CachedAt(s, dev, block, step.b);
    }
  }

  /** Every step is possible when its turn comes. */
  predicate Runs(s: State, steps: seq<Step>)
    decreases |steps|
  {
    steps == [] || (Enabled(s, steps[0]) && Runs(Next(s, steps[0]), steps[1..]))
  }

  function After(s: State, steps: seq<Step>): State
    requires Runs(s, steps)
    decreases |steps|
  {
    if steps == [] then s else After(Next(s, steps[0]), steps[1..])
  }

  /** The block in a machine that has no cache: the data last written to it, in program order;
      None while it is freed. */
  function Plain(s: State, steps: seq<Step>, dev: nat, block: nat, start: Option<Data>): Option<Data>
    requires Runs(s, steps)
    decreases |steps|
  {
    if steps == [] then start
    else
      var now := if !Writes(s, steps[0], dev, block) then start else if steps[0].Discard? then None else
        Some(steps[0].data);
      Plain(Next(s, steps[0]), steps[1..], dev, block, now)
  }

  /** Over every interleaving of every number of processes with the disk, no block is ever in
      two buffers, and every block in use reads as if written straight to the disk. */
  lemma {:induction false} RunContent(s: State, steps: seq<Step>, dev: nat, block: nat, start: Option<Data>)
    requires Inv(s) && Runs(s, steps) && dev != 0
    requires start.Some? ==> start.value == Content(s, dev, block)
    ensures Inv(After(s, steps))
    ensures var want := Plain(s, steps, dev, block, start);
            want.Some? ==> Content(After(s, steps), dev, block) == want.value
    decreases |steps|
  {
    if steps != [] {
      var step := steps[0];
      StepInv(s, step);
      StepContent(s, step, dev, block);
      var now := if !Writes(s, step, dev, block) then start else if step.Discard? then None else Some(step.data);
      RunContent(Next(s, step), steps[1..], dev, block, now);
    }
  }

  /** buffer_init's buffers, all free, show the disk as it is. */
  lemma InitialContent(s: State, dev: nat, block: nat)
    requires dev != 0
    requires forall i: nat | i < |s.bufs| :: s.bufs[i].dev == 0 && !s.bufs[i].upto && !s.bufs[i].dirty
    requires forall i: nat | i < |s.bufs| :: s.bufs[i].users == multiset{} && s.bufs[i].lock == Unlocked
    ensures Inv(s) && Content(s, dev, block) == Disk(s, dev, block)
  {
    forall i: nat | i < |s.bufs| ensures BufferOk(s, s.bufs[i]) {}
    if i: nat :| CachedAt(s, dev, block, i) { assert false; }
  }

  /** Steps that another process than p, or the disk, can take. */
  predicate NotBy(step: Step, p: nat) {
    match step
    case Hold(q, _) => q != p
    case Drop(q, _) => q != p
    case Reassign(q, _, _, _) => q != p
    case Modify(q, _, _) => q != p
    case Overwrite(q, _, _) => q != p
    case Discard(q, _) => q != p
    case _ => true
  }

  /** What p finds when it has slept, or has itself taken `gained` (buffer numbers): the
      buffers it held keep their identity, its count on every buffer is what p made it, what
      was up to date stays so, and a read it waits for goes on until done. */
  ghost predicate Relied(s: State, s': State, p: nat, gained: multiset<nat>) {
    |s'.bufs| == |s.bufs| && forall i: nat | i < |s.bufs| :: BufferRelied(s.bufs[i], s'.bufs[i], p, gained[i])
  }

  predicate BufferRelied(x: Buffer, y: Buffer, p: nat, gained: nat) {
    && y.users[p] == x.users[p] + gained
    && (p in x.users ==> IsBlock(y, x.dev, x.block) && (x.upto ==> y.upto) && (Reading(x) ==> Reading(y) || y.upto))
  }

  lemma StepRelied(s: State, step: Step, p: nat)
    requires Inv(s) && Enabled(s, step) && NotBy(step, p)
    ensures Relied(s, Next(s, step), p, multiset{})
  {
    assert BufferOk(s, s.bufs[step.b]);
    ChangedRelied(s, step, p);
    forall i: nat | i < |s.bufs| ensures BufferRelied(s.bufs[i], Next(s, step).bufs[i], p, 0) {}
  }

  lemma ChangedRelied(s: State, step: Step, p: nat)
    requires Enabled(s, step) && NotBy(step, p) && BufferOk(s, s.bufs[step.b])
    ensures BufferRelied(s.bufs[step.b], Changed(s, step), p, 0)
  {
    var x := s.bufs[step.b];
    if p in x.users { Shared(x.users, p); }
    match step {
      case Hold(q, _) => assert (x.users + multiset{q})[p] == x.users[p];
      case Drop(q, _) => assert (x.users - multiset{q})[p] == x.users[p];
      case Reassign(q, _, _, _) => assert multiset{q}[p] == 0 == x.users[p];
      case _ =>
    }
  }

  /** With p among the users, p is the only user or there is no single one. */
  lemma Shared(users: multiset<nat>, p: nat)
    requires p in users
    ensures forall q | q != p :: users != multiset{q}
  {
    forall q | q != p ensures users != multiset{q} { assert multiset{q}[p] == 0; }
  }

  /** The others' steps during one sleep of p; steps that are not possible are passed over. */
  function Others(s: State, steps: seq<Step>, p: nat): State
    decreases |steps|
  {
    if steps == [] then s
    else if Enabled(s, steps[0]) && NotBy(steps[0], p) then Others(Next(s, steps[0]), steps[1..], p)
    else Others(s, steps[1..], p)
  }

  lemma {:induction false} OthersRelied(s: State, steps: seq<Step>, p: nat)
    requires Inv(s)
    ensures Inv(Others(s, steps, p)) && Relied(s, Others(s, steps, p), p, multiset{})
    decreases |steps|
  {
    if steps != [] {
      if Enabled(s, steps[0]) && NotBy(steps[0], p) {
        StepInv(s, steps[0]);
        StepRelied(s, steps[0], p);
        var s1 := Next(s, steps[0]);
        OthersRelied(s1, steps[1..], p);
        ReliedTrans(s, s1, Others(s, steps, p), p, multiset{}, multiset{});
      } else {
        OthersRelied(s, steps[1..], p);
      }
    }
  }

  lemma ReliedTrans(s0: State, s1: State, s2: State, p: nat, g1: multiset<nat>, g2: multiset<nat>)
    requires Relied(s0, s1, p, g1) && Relied(s1, s2, p, g2)
    ensures Relied(s0, s2, p, g1 + g2)
  {
    forall i: nat | i < |s0.bufs| ensures BufferRelied(s0.bufs[i], s2.bufs[i], p, (g1 + g2)[i]) {
      assert BufferRelied(s0.bufs[i], s1.bufs[i], p, g1[i]) && BufferRelied(s1.bufs[i], s2.bufs[i], p, g2[i]);
    }
  }

  /** Taking or making a reference leaves everything else that p relies on. */
  lemma HoldRelied(s: State, p: nat, b: nat)
    requires Inv(s) && Enabled(s, Hold(p, b))
    ensures Relied(s, Next(s, Hold(p, b)), p, multiset{b})
  {
    forall i: nat | i < |s.bufs| ensures BufferRelied(s.bufs[i], Next(s, Hold(p, b)).bufs[i], p, multiset{b}[i]) {}
  }

  lemma ReassignRelied(s: State, p: nat, b: nat, dev: nat, block: nat)
    requires Inv(s) && Enabled(s, Reassign(p, b, dev, block))
    ensures Relied(s, Next(s, Reassign(p, b, dev, block)), p, multiset{b})
  {
    forall i: nat | i < |s.bufs|
      ensures BufferRelied(s.bufs[i], Next(s, Reassign(p, b, dev, block)).bufs[i], p, multiset{b}[i])
    {
    }
  }

  lemma ReliedSelf(s: State, p: nat)
    ensures Relied(s, s, p, multiset{})
  {
  }

  /** The steps among `steps` that the others take during one sleep of p. */
  function Taken(s: State, steps: seq<Step>, p: nat): seq<Step>
    decreases |steps|
  {
    if steps == [] then []
    else if Enabled(s, steps[0]) && NotBy(steps[0], p) then [steps[0]] + Taken(Next(s, steps[0]), steps[1..], p)
    else Taken(s, steps[1..], p)
  }

  lemma {:induction false} TakenIs(s: State, steps: seq<Step>, p: nat)
    ensures Runs(s, Taken(s, steps, p)) && After(s, Taken(s, steps, p)) == Others(s, steps, p)
    decreases |steps|
  {
    if steps != [] {
      if Enabled(s, steps[0]) && NotBy(steps[0], p) {
        var rest := Taken(Next(s, steps[0]), steps[1..], p);
        TakenIs(Next(s, steps[0]), steps[1..], p);
        assert ([steps[0]] + rest)[1..] == rest;
      } else {
        TakenIs(s, steps[1..], p);
      }
    }
  }

  lemma {:induction false} RunsThen(s: State, a: seq<Step>, b: seq<Step>)
    requires Runs(s, a) && Runs(After(s, a), b)
    ensures Runs(s, a + b) && After(s, a + b) == After(After(s, a), b)
    decreases |a|
  {
    if a == [] {
      assert a + b == b;
    } else {
      RunsThen(Next(s, a[0]), a[1..], b);
      assert (a + b)[0] == a[0] && (a + b)[1..] == a[1..] + b;
    }
  }

  /** What has been logged since log0. */
  function Since(log0: seq<Step>, log: seq<Step>): seq<Step>
    requires |log0| <= |log|
  {
    log[|log0|..]
  }

  /** The steps logged since log0 are a run from s0 to s. */
  ghost predicate Did(s0: State, log0: seq<Step>, s: State, log: seq<Step>) {
    && |log0| <= |log| && log[..|log0|] == log0
    && Runs(s0, Since(log0, log)) && After(s0, Since(log0, log)) == s
  }

  lemma DidSteps(s: State, log: seq<Step>, steps: seq<Step>)
    requires Runs(s, steps)
    ensures Did(s, log, After(s, steps), log + steps) && Since(log, log + steps) == steps
  {
    assert Since(log, log + steps) == steps;
  }

  lemma DidOne(s: State, log: seq<Step>, step: Step)
    requires Enabled(s, step)
    ensures Did(s, log, Next(s, step), log + [step]) && Since(log, log + [step]) == [step]
  {
    var rest: seq<Step> := [step][1..];
    assert rest == [] && After(Next(s, step), rest) == Next(s, step);
    DidSteps(s, log, [step]);
  }

  lemma SinceSplit(log0: seq<Step>, log1: seq<Step>, log2: seq<Step>)
    requires |log0| <= |log1| <= |log2| && log2[..|log1|] == log1
    ensures Since(log0, log2) == Since(log0, log1) + Since(log1, log2)
  {
  }

  lemma DidTrans(s0: State, log0: seq<Step>, s1: State, log1: seq<Step>, s2: State, log2: seq<Step>)
    requires Did(s0, log0, s1, log1) && Did(s1, log1, s2, log2)
    ensures Did(s0, log0, s2, log2) && Since(log0, log2) == Since(log0, log1) + Since(log1, log2)
  {
    SinceSplit(log0, log1, log2);
    RunsThen(s0, Since(log0, log1), Since(log1, log2));
    assert log2[..|log0|] == log1[..|log0|];
  }

  /** In this run the disk is given a write of buffer b, or its contents are given up. */
  predicate Given(s: State, steps: seq<Step>, b: nat)
    requires Runs(s, steps)
    decreases |steps|
  {
    steps != [] && (Gives(s, steps[0], b) || Given(Next(s, steps[0]), steps[1..], b))
  }

  predicate Gives(s: State, step: Step, b: nat) {
    step.b == b && b < |s.bufs| && ((step.Start? && s.bufs[b].lock == Pending(Write)) || step.Discard?)
  }

  lemma {:induction false} GivenThen(s: State, a: seq<Step>, c: seq<Step>, b: nat)
    requires Runs(s, a) && Runs(After(s, a), c)
    ensures Runs(s, a + c) && (Given(s, a + c, b) <==> Given(s, a, b) || Given(After(s, a), c, b))
    decreases |a|
  {
    RunsThen(s, a, c);
    if a == [] {
      assert a + c == c;
    } else {
      GivenThen(Next(s, a[0]), a[1..], c, b);
      assert (a + c)[0] == a[0] && (a + c)[1..] == a[1..] + c;
    }
  }

  /** A dirty buffer stays dirty, and that of its block, until it is given to the disk. */
  lemma {:induction false} DirtyUntilGiven(s: State, steps: seq<Step>, b: nat)
    requires Inv(s) && Runs(s, steps) && b < |s.bufs| && s.bufs[b].dirty && !Given(s, steps, b)
    ensures var y := After(s, steps).bufs; b < |y| && y[b].dirty && IsBlock(y[b], s.bufs[b].dev, s.bufs[b].block)
    ensures s.bufs[b].lock == Pending(Write) ==> After(s, steps).bufs[b].lock == Pending(Write)
    decreases |steps|
  {
    if steps != [] {
      assert BufferOk(s, s.bufs[b]);
      StepInv(s, steps[0]);
      DirtyUntilGiven(Next(s, steps[0]), steps[1..], b);
    }
  }

  /** Nobody modifies a buffer of the device in this run. */
  predicate LeavesDevice(s: State, steps: seq<Step>, dev: nat)
    requires Runs(s, steps)
    decreases |steps|
  {
    steps == [] ||
    (((steps[0].Modify? || steps[0].Overwrite?) ==> s.bufs[steps[0].b].dev != dev) &&
      LeavesDevice(Next(s, steps[0]), steps[1..], dev))
  }

  /** Then a buffer of the device that is dirty at the end was so from the beginning, and has not
      been given to the disk since. */
  lemma {:induction false} StillDirty(s: State, steps: seq<Step>, dev: nat, b: nat)
    requires Inv(s) && Runs(s, steps) && LeavesDevice(s, steps, dev) && b < |After(s, steps).bufs|
    requires After(s, steps).bufs[b].dev == dev && After(s, steps).bufs[b].dirty
    ensures b < |s.bufs| && s.bufs[b].dev == dev && s.bufs[b].dirty && !Given(s, steps, b)
    decreases |steps|
  {
    if steps != [] {
      StepInv(s, steps[0]);
      StillDirty(Next(s, steps[0]), steps[1..], dev, b);
      assert BufferOk(s, s.bufs[b]);
    }
  }

  /** What a call of process p has done: steps of the protocol, its own and the others', that keep the
      invariant and what p relies on. */
  ghost predicate Went(s0: State, log0: seq<Step>, s: State, log: seq<Step>, p: nat, gained: multiset<nat>) {
    Inv(s) && Relied(s0, s, p, gained) && Did(s0, log0, s, log)
  }

  lemma WentSelf(s: State, log: seq<Step>, p: nat)
    requires Inv(s)
    ensures Went(s, log, s, log, p, multiset{})
  {
    ReliedSelf(s, p);
    DidSteps(s, log, []);
    assert log + [] == log;
  }

  lemma WentTrans(s0: State, log0: seq<Step>, s1: State, log1: seq<Step>, s2: State, log2: seq<Step>, p: nat,
      g1: multiset<nat>, g2: multiset<nat>, g: multiset<nat>)
    requires Went(s0, log0, s1, log1, p, g1) && Went(s1, log1, s2, log2, p, g2) && g == g1 + g2
    ensures Went(s0, log0, s2, log2, p, g)
  {
    ReliedTrans(s0, s1, s2, p, g1, g2);
    DidTrans(s0, log0, s1, log1, s2, log2);
  }

  lemma WentOne(s: State, log: seq<Step>, step: Step, p: nat, gained: multiset<nat>)
    requires Inv(s) && Enabled(s, step) && Relied(s, Next(s, step), p, gained)
    ensures Went(s, log, Next(s, step), log + [step], p, gained)
  {
    StepInv(s, step);
    DidOne(s, log, step);
  }

  /** Buffer b was dirty when the log was log0, and has been given to the disk since. */
  ghost predicate Flushed(s0: State, log0: seq<Step>, log: seq<Step>, b: nat) {
    |log0| <= |log| && Runs(s0, Since(log0, log)) && Given(s0, Since(log0, log), b)
  }

  lemma FlushedThen(s0: State, log0: seq<Step>, s1: State, log1: seq<Step>, s2: State, log2: seq<Step>, b: nat)
    requires Did(s0, log0, s1, log1) && Did(s1, log1, s2, log2)
    requires Flushed(s0, log0, log1, b) || Flushed(s1, log1, log2, b)
    ensures Flushed(s0, log0, log2, b)
  {
    DidTrans(s0, log0, s1, log1, s2, log2);
    GivenThen(s0, Since(log0, log1), Since(log1, log2), b);
  }

  /** A buffer that was dirty and is not, or is another block's, or has lost the lock it had for
      writing, has been given to the disk. */
  lemma FlushedIfClean(s0: State, log0: seq<Step>, s: State, log: seq<Step>, b: nat)
    requires Inv(s0) && Did(s0, log0, s, log) && b < |s0.bufs| && s0.bufs[b].dirty
    requires b < |s.bufs| ==>
      || !s.bufs[b].dirty || !IsBlock(s.bufs[b], s0.bufs[b].dev, s0.bufs[b].block)
      || (s0.bufs[b].lock == Pending(Write) && s.bufs[b].lock != Pending(Write))
    ensures Flushed(s0, log0, log, b)
  {
    if !Given(s0, Since(log0, log), b) { DirtyUntilGiven(s0, Since(log0, log), b); }
  }

  /** The first n buffers, as far as they are dirty ones of the device, have been given to the disk. */
  ghost predicate Synced(s0: State, log0: seq<Step>, log: seq<Step>, dev: nat, n: nat) {
    forall b: nat | b < n && b < |s0.bufs| && s0.bufs[b].dev == dev && s0.bufs[b].dirty :: Flushed(s0, log0, log, b)
  }

  lemma SyncedThen(s0: State, log0: seq<Step>, s1: State, log1: seq<Step>, s2: State, log2: seq<Step>, dev: nat, n: nat)
    requires Did(s0, log0, s1, log1) && Did(s1, log1, s2, log2) && Synced(s0, log0, log1, dev, n)
    ensures Synced(s0, log0, log2, dev, n)
  {
    forall b: nat | b < n && b < |s0.bufs| && s0.bufs[b].dev == dev && s0.bufs[b].dirty
      ensures Flushed(s0, log0, log2, b)
    {
      FlushedThen(s0, log0, s1, log1, s2, log2, b);
    }
  }

  /** One more buffer is seen to: it was not dirty, or has been given to the disk. */
  lemma SyncedNext(s0: State, log0: seq<Step>, s1: State, log1: seq<Step>, s2: State, log2: seq<Step>, dev: nat, i: nat)
    requires Inv(s0) && Did(s0, log0, s1, log1) && Did(s1, log1, s2, log2) && i < |s0.bufs| == |s1.bufs|
    requires Synced(s0, log0, log1, dev, i)
    requires s1.bufs[i].dev == dev && s1.bufs[i].dirty ==> Flushed(s1, log1, log2, i)
    ensures Synced(s0, log0, log2, dev, i + 1)
  {
    SyncedThen(s0, log0, s1, log1, s2, log2, dev, i);
    if s0.bufs[i].dev == dev && s0.bufs[i].dirty {
      if !(s1.bufs[i].dev == dev && s1.bufs[i].dirty) { FlushedIfClean(s0, log0, s1, log1, i); }
      FlushedThen(s0, log0, s1, log1, s2, log2, i);
    }
  }

  /** If nobody modified a buffer of the device meanwhile, none is dirty after sync_dev. */
  lemma CleanAfterSync(s0: State, log0: seq<Step>, s: State, log: seq<Step>, dev: nat, b: nat)
    requires Inv(s0) && Did(s0, log0, s, log) && Synced(s0, log0, log, dev, |s0.bufs|)
    requires LeavesDevice(s0, Since(log0, log), dev) && b < |s.bufs| && s.bufs[b].dev == dev
    ensures !s.bufs[b].dirty
  {
    if s.bufs[b].dirty { StillDirty(s0, Since(log0, log), dev, b); }
  }

  /** BADNESS. */
  function Badness(b: Buffer): nat {
    (if b.dirty then 2 else 0) + (if b.lock == Unlocked then 0 else 1)
  }

  /** Nobody refers to the buffer, and it is unlocked and clean. */
  predicate Idle(b: Buffer) {
    b.users == multiset{} && b.lock == Unlocked && !b.dirty
  }

  ghost predicate HasIdle(s: State) {
    exists b: nat :: b < |s.bufs| && Idle(s.bufs[b])
  }

  /** getblk, bread and brelse as process `me` runs them. `schedule` is what all others do
      during each of its sleeps, in turn; when it is used up the process sleeps on (not `ok`).
      `log` is every step taken. */
  class Process {
    const me: nat
    var s: State
    var schedule: seq<seq<Step>>
    ghost var log: seq<Step>

    constructor (me: nat, s: State, schedule: seq<seq<Step>>)
      ensures this.me == me && this.s == s && this.schedule == schedule && log == []
    {
      this.me, this.s, this.schedule, log := me, s, schedule, [];
    }

    method Sleep() returns (ok: bool)
      requires Inv(s)
      modifies this
      ensures Went(old(s), old(log), s, log, me, multiset{})
      ensures if ok then |schedule| == |old(schedule)| - 1 else schedule == old(schedule) == []
    {
      if schedule == [] {
        WentSelf(s, log, me);
        return false;
      }
      OthersRelied(s, schedule[0], me);
      TakenIs(s, schedule[0], me);
      DidSteps(s, log, Taken(s, schedule[0], me));
      log := log + Taken(s, schedule[0], me);
      s := Others(s, schedule[0], me);
      schedule := schedule[1..];
      return true;
    }

    /** A step of this process. */
    method Take(step: Step, ghost gained: multiset<nat>)
      requires Inv(s) && Enabled(s, step) && Relied(s, Next(s, step), me, gained)
      modifies `s, `log
      ensures Went(old(s), old(log), s, log, me, gained)
      ensures s == Next(old(s), step) && log == old(log) + [step]
    {
      WentOne(s, log, step, me, gained);
      s, log := Next(s, step), log + [step];
    }

    /** wait_on_buffer. */
    method WaitOnBuffer(b: nat) returns (ok: bool)
      requires Inv(s) && b < |s.bufs|
      modifies this
      ensures Went(old(s), old(log), s, log, me, multiset{}) && |schedule| <= |old(schedule)|
      ensures ok ==> s.bufs[b].lock == Unlocked && (|schedule| == |old(schedule)| ==> s == old(s))
      ensures !ok ==> schedule == []
      ensures old(s).bufs[b].lock == Unlocked ==> ok && s == old(s) && schedule == old(schedule) && log == old(log)
    {
      ghost var s0, log0 := s, log;
      WentSelf(s, log, me);
      while s.bufs[b].lock != Unlocked
        invariant Went(s0, log0, s, log, me, multiset{}) && |schedule| <= |old(schedule)|
        invariant |schedule| == |old(schedule)| ==> s == s0
        invariant s0.bufs[b].lock == Unlocked ==> s == s0 && schedule == old(schedule) && log == log0
        decreases |schedule|
      {
        ghost var s1, log1 := s, log;
        ok := Sleep();
        WentTrans(s0, log0, s1, log1, s, log, me, multiset{}, multiset{}, multiset{});
        if !ok { return; }
      }
      return true;
    }

    method FindBuffer(dev: nat, block: nat) returns (r: Option<nat>)
      ensures r.Some? ==> r.value < |s.bufs| && IsBlock(s.bufs[r.value], dev, block)
      ensures r.None? ==> NotCached(s, dev, block)
    {
      var i := 0;
      while i < |s.bufs|
        invariant 0 <= i <= |s.bufs| && forall j | 0 <= j < i :: !IsBlock(s.bufs[j], dev, block)
      {
        if IsBlock(s.bufs[i], dev, block) { return Some(i); }
        i := i + 1;
      }
      return None;
    }

    /** get_hash_table. Its re-check never fails: the reference taken before the wait has
        kept the buffer's identity. */
    method GetHashTable(dev: nat, block: nat) returns (ok: bool, r: Option<nat>)
      requires Inv(s) && dev != 0
      modifies this
      ensures Inv(s) && |schedule| <= |old(schedule)| && Did(old(s), old(log), s, log)
      ensures ok && r.Some? ==> Went(old(s), old(log), s, log, me, multiset{r.value}) && r.value < |s.bufs|
      ensures ok && r.Some? ==> IsBlock(s.bufs[r.value], dev, block) && s.bufs[r.value].lock == Unlocked
      ensures ok && r.None? ==> s == old(s) && schedule == old(schedule) && NotCached(s, dev, block)
      ensures ok && r.None? ==> log == old(log)
      ensures NotCached(old(s), dev, block) ==> ok && r.None?
      ensures !ok ==> schedule == []
      ensures forall i: nat | i < |old(s).bufs| && IsBlock(old(s).bufs[i], dev, block) ::
        old(s).bufs[i].lock == Unlocked ==>
          ok && r == Some(i) && s == Next(old(s), Hold(me, i)) && schedule == old(schedule)
    {
      ghost var s0, log0 := s, log;
      r := FindBuffer(dev, block);
      if r.None? {
        WentSelf(s, log, me);
        return true, r;
      }
      OneCopy(s, dev, block, r.value);
      HoldRelied(s, me, r.value);
      Take(Hold(me, r.value), multiset{r.value});
      ghost var s1, log1 := s, log;
      ok := WaitOnBuffer(r.value);
      WentTrans(s0, log0, s1, log1, s, log, me, multiset{r.value}, multiset{}, multiset{r.value});
      assert IsBlock(s.bufs[r.value], dev, block) by {
        assert me in s1.bufs[r.value].users;
        assert BufferRelied(s1.bufs[r.value], s.bufs[r.value], me, 0);
      }
    }

    /** ll_rw_block and make_request: lock the buffer, return if there is nothing to do, wait
        for a free request slot as long as it takes, and queue the request. */
    method LlRwBlock(dir: Dir, b: nat) returns (ok: bool)
      requires Inv(s) && b < |s.bufs| && (dir.Read? ==> me in s.bufs[b].users)
      modifies this
      ensures Went(old(s), old(log), s, log, me, multiset{}) && |schedule| <= |old(schedule)|
      ensures ok && dir.Read? ==> s.bufs[b].upto || Reading(s.bufs[b])
      ensures ok && dir.Write? && old(s).bufs[b].dirty ==> Flushed(old(s), old(log), log, b)
      ensures !ok ==> schedule == []
    {
      ghost var s0, log0 := s, log;
      ok := WaitOnBuffer(b);
      if !ok { return; }
      assert BufferOk(s, s.bufs[b]);
      assert BufferRelied(s0.bufs[b], s.bufs[b], me, 0);
      if if dir.Write? then !s.bufs[b].dirty else s.bufs[b].upto {
        if dir.Write? && s0.bufs[b].dirty { FlushedIfClean(s0, log0, s, log, b); }
        return;
      }
      ghost var s1, log1 := s, log;
      ok := Request(dir, b);
      WentTrans(s0, log0, s1, log1, s, log, me, multiset{}, multiset{}, multiset{});
      if dir.Write? && ok { FlushedThen(s0, log0, s1, log1, s, log, b); }
      assert BufferRelied(s0.bufs[b], s1.bufs[b], me, 0);
    }

    /** make_request from the point where it has locked the buffer. */
    method Request(dir: Dir, b: nat) returns (ok: bool)
      requires Inv(s) && b < |s.bufs| && (dir.Read? ==> me in s.bufs[b].users) && Enabled(s, Step.Lock(b, dir))
      modifies this
      ensures Went(old(s), old(log), s, log, me, multiset{}) && |schedule| <= |old(schedule)|
      ensures ok && dir.Read? ==> s.bufs[b].upto || Reading(s.bufs[b])
      ensures ok && dir.Write? ==> Flushed(old(s), old(log), log, b)
      ensures !ok ==> schedule == []
    {
      ghost var s0, log0 := s, log;
      TakeAlone(Step.Lock(b, dir));
      ghost var sl, logl := s, log;
      WentSelf(s, log, me);
      ok := true;
      var free: bool := *;
      while s.bufs[b].lock.Pending? && !free
        invariant ok && Went(sl, logl, s, log, me, multiset{}) && |schedule| <= |old(schedule)|
        invariant dir.Read? ==> s.bufs[b].upto || Reading(s.bufs[b])
        decreases |schedule|
      {
        ghost var s1, log1 := s, log;
        ok := Sleep();
        WentTrans(sl, logl, s1, log1, s, log, me, multiset{}, multiset{}, multiset{});
        if !ok {
          WentTrans(s0, log0, sl, logl, s, log, me, multiset{}, multiset{}, multiset{});
          return;
        }
        assert BufferRelied(s1.bufs[b], s.bufs[b], me, 0);
        assert BufferRelied(sl.bufs[b], s1.bufs[b], me, 0);
        free := *;
      }
      ghost var se, loge := s, log;
      if s.bufs[b].lock.Pending? {
        TakeAlone(Start(b));
        WentTrans(sl, logl, se, loge, s, log, me, multiset{}, multiset{}, multiset{});
      }
      WentTrans(s0, log0, sl, logl, s, log, me, multiset{}, multiset{}, multiset{});
      if dir.Write? {
        StartedSince(sl, logl, se, loge, s, log, b);
        FlushedThen(s0, log0, sl, logl, s, log, b);
      }
    }

    /** A step on the way that concerns no reference of this process. */
    method TakeAlone(step: Step)
      requires Inv(s) && Enabled(s, step) && NotBy(step, me)
      modifies `s, `log
      ensures Went(old(s), old(log), s, log, me, multiset{})
      ensures s == Next(old(s), step) && log == old(log) + [step]
    {
      StepRelied(s, step, me);
      Take(step, multiset{});
    }

    /** One of the two sweeps of sync_dev. */
    method SyncPass(dev: nat) returns (ok: bool)
      requires Inv(s)
      modifies this
      ensures Went(old(s), old(log), s, log, me, multiset{}) && |schedule| <= |old(schedule)|
      ensures ok ==> Synced(old(s), old(log), log, dev, |old(s).bufs|)
      ensures !ok ==> schedule == []
    {
      ghost var s0, log0 := s, log;
      WentSelf(s, log, me);
      var i := 0;
      while i < |s.bufs|
        invariant 0 <= i <= |s0.bufs|
        invariant Went(s0, log0, s, log, me, multiset{}) && |schedule| <= |old(schedule)|
        invariant Synced(s0, log0, log, dev, i)
        decreases |s0.bufs| - i
      {
        ghost var s1, log1 := s, log;
        WentSelf(s, log, me);
        if s.bufs[i].dev == dev {
          ok := SyncBuffer(dev, i);
          WentTrans(s0, log0, s1, log1, s, log, me, multiset{}, multiset{}, multiset{});
          if !ok { return; }
        }
        SyncedNext(s0, log0, s1, log1, s, log, dev, i);
        i := i + 1;
      }
      ok := true;
    }

    /** What a sweep does to one buffer of the device. */
    method SyncBuffer(dev: nat, i: nat) returns (ok: bool)
      requires Inv(s) && i < |s.bufs| && s.bufs[i].dev == dev
      modifies this
      ensures Went(old(s), old(log), s, log, me, multiset{}) && |schedule| <= |old(schedule)|
      ensures ok && old(s).bufs[i].dirty ==> Flushed(old(s), old(log), log, i)
      ensures !ok ==> schedule == []
    {
      ghost var s0, log0 := s, log;
      ok := WaitOnBuffer(i);
      if !ok { return; }
      ghost var s1, log1 := s, log;
      if s.bufs[i].dev == dev && s.bufs[i].dirty {
        ok := LlRwBlock(Write, i);
        WentTrans(s0, log0, s1, log1, s, log, me, multiset{}, multiset{}, multiset{});
        if ok { FlushedThen(s0, log0, s1, log1, s, log, i); }
      } else if s0.bufs[i].dirty {
        FlushedIfClean(s0, log0, s, log, i);
      }
    }

    /** sync_dev; its sync_inodes is one more sleep. Every buffer of the device that was dirty has
        been given to the disk, and so has, in the second sweep, every one that was dirty after the
        first; unless somebody modified a buffer of the device meanwhile, none is dirty now. */
    method SyncDev(dev: nat) returns (ok: bool)
      requires Inv(s)
      modifies this
      ensures Went(old(s), old(log), s, log, me, multiset{})
      ensures if ok then |schedule| < |old(schedule)| else schedule == []
      ensures ok ==> Synced(old(s), old(log), log, dev, |old(s).bufs|)
      ensures ok && LeavesDevice(old(s), Since(old(log), log), dev) ==>
        forall b: nat | b < |s.bufs| && s.bufs[b].dev == dev :: !s.bufs[b].dirty
    {
      ghost var s0, log0 := s, log;
      ok := SyncPass(dev);
      if !ok { return; }
      ghost var s1, log1 := s, log;
      ok := Sleep();
      WentTrans(s0, log0, s1, log1, s, log, me, multiset{}, multiset{}, multiset{});
      if !ok { return; }
      SyncedThen(s0, log0, s1, log1, s, log, dev, |s0.bufs|);
      ghost var s2, log2 := s, log;
      ok := SyncPass(dev);
      WentTrans(s0, log0, s2, log2, s, log, me, multiset{}, multiset{}, multiset{});
      if !ok { return; }
      SyncedThen(s0, log0, s2, log2, s, log, dev, |s0.bufs|);
      if LeavesDevice(s0, Since(log0, log), dev) {
        forall b: nat | b < |s.bufs| && s.bufs[b].dev == dev ensures !s.bufs[b].dirty {
          CleanAfterSync(s0, log0, s, log, dev, b);
        }
      }
    }

    /** The part of getblk between choosing a buffer and finding it unreferenced, unlocked and
        clean after all the waiting; `r` says whether it is. */
    method MakeClean(b: nat) returns (ok: bool, r: bool)
      requires Inv(s) && b < |s.bufs| && s.bufs[b].users == multiset{}
      modifies this
      ensures Went(old(s), old(log), s, log, me, multiset{}) && |schedule| <= |old(schedule)|
      ensures |schedule| == |old(schedule)| && ok ==> r && s == old(s)
      ensures ok && r ==> s.bufs[b].users == multiset{} && s.bufs[b].lock == Unlocked && !s.bufs[b].dirty
      ensures ok && !r ==> s.bufs[b].users != multiset{}
      ensures !ok ==> schedule == []
      ensures Idle(old(s).bufs[b]) ==> ok && r && schedule == old(schedule)
    {
      ghost var s0, log0 := s, log;
      r := false;
      ok := WaitOnBuffer(b);
      if !ok || s.bufs[b].users != multiset{} { return; }
      while s.bufs[b].dirty
        invariant Went(s0, log0, s, log, me, multiset{}) && |schedule| <= |old(schedule)|
        invariant |schedule| == |old(schedule)| ==> s == s0
        invariant ok && s.bufs[b].users == multiset{} && s.bufs[b].lock == Unlocked
        invariant Idle(s0.bufs[b]) ==> s == s0 && schedule == old(schedule)
        decreases |schedule|
      {
        ghost var s1, log1 := s, log;
        ok := SyncDev(s.bufs[b].dev);
        WentTrans(s0, log0, s1, log1, s, log, me, multiset{}, multiset{}, multiset{});
        if !ok { return; }
        ghost var s2, log2 := s, log;
        ok := WaitOnBuffer(b);
        WentTrans(s0, log0, s2, log2, s, log, me, multiset{}, multiset{}, multiset{});
        if !ok || s.bufs[b].users != multiset{} { return; }
      }
      r := true;
    }

    /** getblk's search for a buffer that nobody refers to, least bad if not none. */
    method Victim() returns (r: Option<nat>)
      ensures r.None? ==> forall b: nat | b < |s.bufs| :: s.bufs[b].users != multiset{}
      ensures r.Some? ==> r.value < |s.bufs| && s.bufs[r.value].users == multiset{}
      ensures r.Some? && !Idle(s.bufs[r.value]) ==> forall b: nat | b < |s.bufs| :: !Idle(s.bufs[b])
    {
      r := None;
      var i := 0;
      while i < |s.bufs|
        invariant 0 <= i <= |s.bufs|
        invariant r.None? ==> forall b: nat | b < i :: s.bufs[b].users != multiset{}
        invariant r.Some? ==> r.value < |s.bufs| && s.bufs[r.value].users == multiset{}
        invariant r.Some? && !Idle(s.bufs[r.value]) ==> forall b: nat | b < i :: !Idle(s.bufs[b])
      {
        if s.bufs[i].users == multiset{} && (r.None? || Badness(s.bufs[i]) < Badness(s.bufs[r.value])) {
          r := Some(i);
          if Badness(s.bufs[i]) == 0 { return; }
        }
        i := i + 1;
      }
    }

    /** getblk. The buffer returned holds the block, unlocked, with one more reference by this
        process. Reassign's guard makes the body prove that a buffer is taken from another
        block only when it is unreferenced, unlocked and clean and no buffer holds the wanted
        block. A block that is cached and unlocked is found without a sleep, and for one that is not
        cached a buffer that is unreferenced, unlocked and clean is taken without one. */
    method GetBlk(dev: nat, block: nat) returns (ok: bool, r: nat)
      requires Inv(s) && dev != 0
      modifies this
      ensures Inv(s) && |schedule| <= |old(schedule)| && Did(old(s), old(log), s, log)
      ensures ok ==> r < |s.bufs| && Went(old(s), old(log), s, log, me, multiset{r})
      ensures ok ==> IsBlock(s.bufs[r], dev, block) && s.bufs[r].lock == Unlocked
      ensures !ok ==> schedule == []
      ensures forall i: nat | i < |old(s).bufs| && IsBlock(old(s).bufs[i], dev, block) ::
        old(s).bufs[i].lock == Unlocked ==> ok && r == i && s == Next(old(s), Hold(me, i)) && schedule == old(schedule)
      ensures HasIdle(old(s)) && NotCached(old(s), dev, block) ==>
        && ok && r < |old(s).bufs| && Idle(old(s).bufs[r])
        && s == Next(old(s), Reassign(me, r, dev, block)) && schedule == old(schedule)
    {
      ghost var s0, log0 := s, log;
      r := 0;
      WentSelf(s, log, me);
      while true
        invariant Went(s0, log0, s, log, me, multiset{}) && |schedule| <= |old(schedule)|
        invariant forall i: nat | i < |s0.bufs| && IsBlock(s0.bufs[i], dev, block) ::
          s0.bufs[i].lock == Unlocked ==> s == s0 && schedule == old(schedule)
        invariant HasIdle(s0) && NotCached(s0, dev, block) ==> s == s0 && schedule == old(schedule)
        decreases |schedule|
      {
        ghost var s1, log1, left := s, log, |schedule|;
        var h;
        ok, h := GetHashTable(dev, block);
        if !ok {
          DidTrans(s0, log0, s1, log1, s, log);
          return;
        }
        if h.Some? {
          WentTrans(s0, log0, s1, log1, s, log, me, multiset{}, multiset{h.value}, multiset{h.value});
          return true, h.value;
        }
        var b := Victim();
        if b.None? {
          ok := Sleep();
          WentTrans(s0, log0, s1, log1, s, log, me, multiset{}, multiset{}, multiset{});
          if !ok { return; }
          continue;
        }
        var taken;
        ok, taken := Reuse(b.value, dev, block);
        ghost var gained := if taken then multiset{b.value} else multiset{};
        WentTrans(s0, log0, s1, log1, s, log, me, multiset{}, gained, gained);
        if !ok { return; }
        if taken { return true, b.value; }
      }
    }

    /** getblk with the buffer it has chosen: cleaned, and taken for the block unless somebody else
        has the buffer or the block by then; in that case others have been running. */
    method Reuse(b: nat, dev: nat, block: nat) returns (ok: bool, taken: bool)
      requires Inv(s) && b < |s.bufs| && s.bufs[b].users == multiset{} && dev != 0 && NotCached(s, dev, block)
      modifies this
      ensures Went(old(s), old(log), s, log, me, if taken then multiset{b} else multiset{})
      ensures taken ==> ok && IsBlock(s.bufs[b], dev, block) && s.bufs[b].lock == Unlocked
      ensures |schedule| <= |old(schedule)| && (ok && !taken ==> |schedule| < |old(schedule)|)
      ensures !ok ==> schedule == [] && !taken
      ensures Idle(old(s).bufs[b]) ==>
        taken && s == Next(old(s), Reassign(me, b, dev, block)) && schedule == old(schedule)
    {
      ghost var s0, log0 := s, log;
      taken := false;
      var clean;
      ok, clean := MakeClean(b);
      if !ok || !clean { return; }
      var h := FindBuffer(dev, block);
      if h.Some? { return; }
      ReassignRelied(s, me, b, dev, block);
      ghost var s1, log1 := s, log;
      Take(Reassign(me, b, dev, block), multiset{b});
      WentTrans(s0, log0, s1, log1, s, log, me, multiset{}, multiset{b}, multiset{b});
      taken := true;
    }

    /** bread. Without I/O errors its NULL return is never taken: the reference it holds keeps
        the buffer's identity, and the read it waits for ends with the data there. A block that is
        cached, unlocked and up to date needs no sleep. */
    method Bread(dev: nat, block: nat) returns (ok: bool, r: nat)
      requires Inv(s) && dev != 0
      modifies this
      ensures Inv(s) && |schedule| <= |old(schedule)| && Did(old(s), old(log), s, log)
      ensures ok ==> r < |s.bufs| && Went(old(s), old(log), s, log, me, multiset{r}) && CachedAt(s, dev, block, r)
      ensures ok ==> s.bufs[r].data == Content(s, dev, block) && s.bufs[r].lock == Unlocked
      ensures !ok ==> schedule == []
      ensures forall i: nat | CachedAt(old(s), dev, block, i) ::
        old(s).bufs[i].lock == Unlocked ==> ok && r == i && s == Next(old(s), Hold(me, i)) && schedule == old(schedule)
    {
      ghost var s0, log0 := s, log;
      ok, r := GetBlk(dev, block);
      if !ok { return; }
      if s.bufs[r].upto {
        ContentCached(s, dev, block, r);
        return;
      }
      ghost var s1, log1 := s, log;
      assert BufferRelied(s0.bufs[r], s.bufs[r], me, 1);
      ok := ReadIn(dev, block, r);
      DidTrans(s0, log0, s1, log1, s, log);
      if !ok { return; }
      WentTrans(s0, log0, s1, log1, s, log, me, multiset{r}, multiset{}, multiset{r});
    }

    /** bread's request and its wait. */
    method ReadIn(dev: nat, block: nat, r: nat) returns (ok: bool)
      requires Inv(s) && dev != 0 && r < |s.bufs| && me in s.bufs[r].users && IsBlock(s.bufs[r], dev, block)
      modifies this
      ensures Went(old(s), old(log), s, log, me, multiset{}) && |schedule| <= |old(schedule)|
      ensures ok ==>
        CachedAt(s, dev, block, r) && s.bufs[r].data == Content(s, dev, block) && s.bufs[r].lock == Unlocked
      ensures !ok ==> schedule == []
    {
      ghost var s1, log1 := s, log;
      ok := LlRwBlock(Read, r);
      if !ok { return; }
      ghost var s2, log2 := s, log;
      assert BufferRelied(s1.bufs[r], s2.bufs[r], me, 0);
      ok := WaitOnBuffer(r);
      WentTrans(s1, log1, s2, log2, s, log, me, multiset{}, multiset{}, multiset{});
      if !ok { return; }
      assert BufferRelied(s2.bufs[r], s.bufs[r], me, 0);
      ContentCached(s, dev, block, r);
    }

    /** brelse: the wait, and then one reference fewer. */
    method Brelse(b: nat) returns (ok: bool)
      requires Inv(s) && b < |s.bufs| && me in s.bufs[b].users
      modifies this
      ensures Inv(s) && |schedule| <= |old(schedule)| && |s.bufs| == |old(s).bufs| && Did(old(s), old(log), s, log)
      ensures ok ==> s.bufs[b].lock == Unlocked && s.bufs[b].users[me] == old(s).bufs[b].users[me] - 1
      ensures forall i: nat | i < |s.bufs| && i != b :: BufferRelied(old(s).bufs[i], s.bufs[i], me, 0)
      ensures !ok ==> schedule == []
    {
      ghost var s0, log0 := s, log;
      ok := WaitOnBuffer(b);
      if !ok { return; }
      assert BufferRelied(s0.bufs[b], s.bufs[b], me, 0);
      ghost var s1, log1 := s, log;
      StepInv(s, Drop(me, b));
      DidOne(s, log, Drop(me, b));
      s, log := Next(s, Drop(me, b)), log + [Drop(me, b)];
      DidTrans(s0, log0, s1, log1, s, log);
    }
  }

  /** A buffer locked for writing whose request has been queued, by this process now or by the time
      it looked, has been given to the disk. */
  lemma StartedSince(s0: State, log0: seq<Step>, s1: State, log1: seq<Step>, s: State, log: seq<Step>, b: nat)
    requires Inv(s0) && Inv(s1) && Did(s0, log0, s1, log1) && b < |s0.bufs| == |s1.bufs|
    requires s0.bufs[b].dirty && s0.bufs[b].lock == Pending(Write)
    requires if s1.bufs[b].lock.Pending?
             then Enabled(s1, Start(b)) && s == Next(s1, Start(b)) && log == log1 + [Start(b)]
             else s == s1 && log == log1
    ensures Flushed(s0, log0, log, b)
  {
    if s1.bufs[b].lock == Pending(Write) {
      DidOne(s1, log1, Start(b));
      assert Gives(s1, Start(b), b);
      assert Flushed(s1, log1, log, b);
      FlushedThen(s0, log0, s1, log1, s, log, b);
    } else {
      FlushedIfClean(s0, log0, s1, log1, b);
      if s1.bufs[b].lock.Pending? {
        DidOne(s1, log1, Start(b));
        FlushedThen(s0, log0, s1, log1, s, log, b);
      }
    }
  }
}
