/** The disk's request queue: where add_request puts a request, and what order that keeps. */
module Elevator {

  datatype Command = Read | Write

  /** A request of a buffer, or of a page to swap (`swap`: no buffer head). dev is -1 in a slot
      that is free. */
  datatype Request = Request(cmd: Command, dev: int, sector: nat, swap: bool)

  function Rank(c: Command): nat {
    if c.Read? then 0 else 1
  }

  predicate InOrder(a: Request, b: Request) {
    || Rank(a.cmd) < Rank(b.cmd)
    || (a.cmd == b.cmd && a.dev < b.dev)
    || (a.dev == b.dev && a.sector < b.sector)
  }

  /** InOrder is not an order: a read and a write of the same device come both before and after
      each other if the read's sector is the higher one, and in no other case. */
  lemma BothWays(a: Request, b: Request)
    ensures InOrder(a, b) && InOrder(b, a) <==>
      && a.dev == b.dev
      && ((a.cmd.Read? && b.cmd.Write? && b.sector < a.sector) || (a.cmd.Write? && b.cmd.Read? && a.sector < b.sector))
  {
  }

  lemma NeitherWay(a: Request, b: Request)
    ensures !InOrder(a, b) && !InOrder(b, a) <==> a.cmd == b.cmd && a.dev == b.dev && a.sector == b.sector
  {
  }

  /** The loop's test for putting r before q[i]. */
  predicate Stops(q: seq<Request>, i: nat, r: Request)
    requires 0 < i < |q|
  {
    if r.swap then !q[i].swap
    else (InOrder(q[i - 1], r) || !InOrder(q[i - 1], q[i])) && InOrder(r, q[i])
  }

  /** Where r goes in, searching from position i on. */
  function Place(q: seq<Request>, r: Request, i: nat): (p: nat)
    requires 0 < i <= |q|
    ensures i <= p <= |q| && (p < |q| ==> Stops(q, p, r)) && forall j | i <= j < p :: !Stops(q, j, r)
    decreases |q| - i
  {
    if i == |q| || Stops(q, i, r) then i else Place(q, r, i + 1)
  }

  function Insert(q: seq<Request>, r: Request): seq<Request> {
    if q == [] then [r] else var p := Place(q, r, 1); q[..p] + [r] + q[p..]
  }

  /** A place where the arm turns back. */
  predicate Descent(q: seq<Request>, i: nat) {
    0 < i < |q| && !InOrder(q[i - 1], q[i])
  }

  /** Two sweeps: the rest of the one under way, and the next. */
  ghost predicate OneWay(q: seq<Request>) {
    forall i, j :: Descent(q, i) && Descent(q, j) ==> i == j
  }

  predicate Different(a: Request, b: Request) {
    a.cmd != b.cmd || a.dev != b.dev || a.sector != b.sector
  }

  predicate AllDifferent(q: seq<Request>, r: Request) {
    forall i | 0 <= i < |q| :: Different(q[i], r)
  }

  /** If from position d on the queue never stops for r, which comes after q[d], then r comes
      after its last. */
  lemma {:induction false} AfterAll(q: seq<Request>, r: Request, d: nat, n: nat)
    requires 0 < d <= n < |q| && AllDifferent(q, r) && !r.swap && InOrder(q[d], r)
    requires forall j | d < j <= n :: !Stops(q, j, r)
    ensures InOrder(q[n], r)
  {
    if d < n {
      AfterAll(q, r, d, n - 1);
      NeitherWay(q[n], r);
      assert !Stops(q, n, r);
    }
  }

  /** The elevator: a new request of a buffer keeps the queue to two sweeps. Nothing is asked of
      the requests but that no two are the same, so this holds for reads and writes mixed,
      where InOrder is no order. */
  lemma InsertOneWay(q: seq<Request>, r: Request)
    requires OneWay(q) && AllDifferent(q, r) && !r.swap
    ensures OneWay(Insert(q, r))
  {
    if q != [] {
      forall i, j | Descent(Insert(q, r), i) && Descent(Insert(q, r), j) ensures i == j {
        InsertDescent(q, r, i);
        InsertDescent(q, r, j);
      }
    }
  }

  /** The turns after an insertion are those there were, moved up behind the new request, where
      a turn that it was put into stays one; at the very end there is a new turn only if there
      was none before. */
  lemma InsertDescent(q: seq<Request>, r: Request, i: nat)
    requires q != [] && AllDifferent(q, r) && !r.swap && Descent(Insert(q, r), i)
    ensures var p := Place(q, r, 1);
            if i < p then Descent(q, i)
            else if i > p then i > p + 1 && Descent(q, i - 1)
            else if p < |q| then Descent(q, p)
            else forall k :: !Descent(q, k)
  {
    var p := Place(q, r, 1);
    var q' := Insert(q, r);
    assert forall k | 0 <= k < |q'| :: q'[k] == if k < p then q[k] else if k == p then r else q[k - 1];
    if i == p == |q| {
      forall k | Descent(q, k) ensures false { TurnCatches(q, r, k); }
    }
  }

  /** A request that fits nowhere comes after the last one, if the queue turns at all. */
  lemma TurnCatches(q: seq<Request>, r: Request, k: nat)
    requires q != [] && AllDifferent(q, r) && !r.swap && Place(q, r, 1) == |q| && Descent(q, k)
    ensures InOrder(q[|q| - 1], r)
  {
    NeitherWay(q[k], r);
    assert !Stops(q, k, r);
    AfterAll(q, r, k, |q| - 1);
  }

  /** Taking the finished request off the front leaves the sweeps as they were. */
  lemma CompleteOneWay(q: seq<Request>)
    requires q != [] && OneWay(q)
    ensures OneWay(q[1..])
  {
    forall i: nat, j: nat | Descent(q[1..], i) && Descent(q[1..], j) ensures i == j {
      assert Descent(q, i + 1) && Descent(q, j + 1);
    }
  }

  predicate ArmTurns(q: seq<Request>, i: nat) {
    0 < i < |q| && q[i].sector < q[i - 1].sector
  }

  /** On one device the sector numbers turn where the queue does, and nowhere else unless a write
      follows a read of a higher sector. */
  lemma ArmExact(q: seq<Request>, i: nat)
    requires 0 < i < |q| && q[i - 1].dev == q[i].dev && Different(q[i - 1], q[i])
    ensures ArmTurns(q, i) <==>
      || (Descent(q, i) && q[i - 1].sector != q[i].sector)
      || (q[i - 1].cmd.Read? && q[i].cmd.Write? && q[i].sector < q[i - 1].sector)
  {
  }

  /** With one command and one device, the arm itself turns back at most once. */
  lemma OneCommandArm(q: seq<Request>)
    requires OneWay(q)
    requires forall i, j | 0 <= i < j < |q| ::
      q[i].dev == q[j].dev && q[i].cmd == q[j].cmd && q[i].sector != q[j].sector
    ensures forall i, j | ArmTurns(q, i) && ArmTurns(q, j) :: i == j
  {
    forall i, j | ArmTurns(q, i) && ArmTurns(q, j) ensures i == j { assert Descent(q, i) && Descent(q, j); }
  }

  predicate TurnsBack(q: seq<Request>, i: nat) {
    0 < i < |q| &&
    (q[i].dev < q[i - 1].dev || (q[i].dev == q[i - 1].dev && q[i].sector < q[i - 1].sector))
  }

  /** With one command and several devices, they are gone through in ascending order, and the sectors
      of each, with at most one turn back. */
  lemma OneCommandDevices(q: seq<Request>)
    requires OneWay(q) && forall i, j | 0 <= i < j < |q| :: q[i].cmd == q[j].cmd && Different(q[i], q[j])
    ensures forall i, j | TurnsBack(q, i) && TurnsBack(q, j) :: i == j
  {
    forall i, j | TurnsBack(q, i) && TurnsBack(q, j) ensures i == j { assert Descent(q, i) && Descent(q, j); }
  }

  /** With both commands it does not: a read, a write below it and a read below that turn the
      arm twice. */
  lemma MixedArm(dev: int)
    ensures var q1 := Insert(Insert([], Request(Read, dev, 3, false)), Request(Write, dev, 2, false));
            var q := Insert(q1, Request(Read, dev, 1, false));
            OneWay(q) && ArmTurns(q, 1) && ArmTurns(q, 2)
  {
    var a, b, c := Request(Read, dev, 3, false), Request(Write, dev, 2, false), Request(Read, dev, 1, false);
    assert Insert([a], b) == [a, b];
    assert Place([a, b], c, 1) == 2;
    assert Insert([a, b], c) == [a, b, c];
    assert !Descent([a, b, c], 1);
  }

  /** Behind the request in service, the swap requests come first. */
  predicate SwapsFirst(q: seq<Request>) {
    forall i, j | 0 < i < j < |q| :: q[j].swap ==> q[i].swap
  }

  function Swaps(q: seq<Request>): seq<Request> {
    if q == [] then [] else (if q[0].swap then [q[0]] else []) + Swaps(q[1..])
  }

  lemma {:induction false} SwapsOf(a: seq<Request>, b: seq<Request>)
    ensures Swaps(a + b) == Swaps(a) + Swaps(b)
  {
    if a == [] {
      assert a + b == b;
    } else {
      SwapsOf(a[1..], b);
      assert (a + b)[0] == a[0] && (a + b)[1..] == a[1..] + b;
    }
  }

  lemma {:induction false} NoSwaps(q: seq<Request>)
    requires forall i | 0 <= i < |q| :: !q[i].swap
    ensures Swaps(q) == []
  {
    if q != [] { NoSwaps(q[1..]); }
  }

  /** Swap requests are served in the order they come. */
  lemma SwapsInTurn(q: seq<Request>, r: Request)
    requires SwapsFirst(q) && r.swap
    ensures SwapsFirst(Insert(q, r)) && Swaps(Insert(q, r)) == Swaps(q) + [r]
  {
    if q != [] {
      var p := Place(q, r, 1);
      forall i | p <= i < |q| ensures !q[i].swap { assert p < |q| ==> Stops(q, p, r); }
      forall i | 0 < i < p ensures q[i].swap { assert !Stops(q, i, r); }
      NoSwaps(q[p..]);
      SwapsOf(q[..p], q[p..]);
      assert q == q[..p] + q[p..];
      SwapsOf(q[..p] + [r], q[p..]);
      SwapsOf(q[..p], [r]);
    }
  }

  /** A later request of a buffer goes in before a waiting swap request exactly if the place the
      loop stops at is one: the comparison looks at the swap requests' sectors too. */
  lemma SwapsFirstExact(q: seq<Request>, r: Request)
    requires SwapsFirst(q) && !r.swap && q != []
    ensures SwapsFirst(Insert(q, r)) <==> forall i | 0 < i < |q| && q[i].swap :: !Stops(q, i, r)
  {
    var p := Place(q, r, 1);
    var q' := Insert(q, r);
    assert forall k | 0 <= k < |q'| :: q'[k] == if k < p then q[k] else if k == p then r else q[k - 1];
    if p < |q| && q[p].swap { assert q'[p + 1].swap && !q'[p].swap; }
    if i :| 0 < i < |q| && q[i].swap && Stops(q, i, r) {
      assert p <= i && q[p].swap;
    }
  }

  lemma SwapOvertaken(dev: int)
    ensures var q := [Request(Read, dev, 1, false), Request(Write, dev, 8, true)];
            SwapsFirst(q) && !SwapsFirst(Insert(q, Request(Read, dev, 2, false)))
  {
    var q, r := [Request(Read, dev, 1, false), Request(Write, dev, 8, true)], Request(Read, dev, 2, false);
    assert Stops(q, 1, r);
    SwapsFirstExact(q, r);
  }

  /** The request in service stays in front, and no other is lost or doubled. */
  lemma InsertKeeps(q: seq<Request>, r: Request)
    ensures multiset(Insert(q, r)) == multiset(q) + multiset{r}
    ensures q != [] ==> Insert(q, r)[0] == q[0]
  {
    if q != [] {
      var p := Place(q, r, 1);
      assert q == q[..p] + q[p..];
    }
  }

  function Flag(b: bool): nat {
    if b then 1 else 0
  }

  /** The turns before position n. */
  function TurnsTo(q: seq<Request>, n: nat): nat {
    if n == 0 then 0 else TurnsTo(q, n - 1) + Flag(Descent(q, n - 1))
  }

  function Turns(q: seq<Request>): nat {
    TurnsTo(q, |q|)
  }

  lemma {:induction false} NoTurn(q: seq<Request>, n: nat)
    ensures TurnsTo(q, n) == 0 <==> forall i: nat | i < n :: !Descent(q, i)
  {
    if n > 0 { NoTurn(q, n - 1); }
  }

  lemma {:induction false} OneTurn(q: seq<Request>, n: nat)
    ensures TurnsTo(q, n) <= 1 <==> forall i: nat, j: nat | i < n && j < n && Descent(q, i) && Descent(q, j) :: i == j
  {
    if n > 0 {
      OneTurn(q, n - 1);
      NoTurn(q, n - 1);
    }
  }

  lemma OneWayIsOneTurn(q: seq<Request>)
    ensures OneWay(q) <==> Turns(q) <= 1
  {
    OneTurn(q, |q|);
  }

  lemma {:induction false} SameTurns(q: seq<Request>, q': seq<Request>, n: nat)
    requires forall i: nat | i < n :: Descent(q', i) == Descent(q, i)
    ensures TurnsTo(q', n) == TurnsTo(q, n)
  {
    if n > 0 { SameTurns(q, q', n - 1); }
  }

  lemma {:induction false} TurnsAfter(q: seq<Request>, q': seq<Request>, n: nat, m: nat)
    requires m <= n && forall i: nat | m <= i < n :: Descent(q', i + 1) == Descent(q, i)
    ensures TurnsTo(q', n + 1) - TurnsTo(q', m + 1) == TurnsTo(q, n) - TurnsTo(q, m)
    decreases n
  {
    if n > m { TurnsAfter(q, q', n - 1, m); }
  }

  lemma OldDescents(q: seq<Request>, r: Request)
    requires q != []
    ensures var p, q' := Place(q, r, 1), Insert(q, r);
            && |q'| == |q| + 1 && (forall i: nat | i < p :: Descent(q', i) == Descent(q, i))
            && (forall i: nat | p < i :: Descent(q', i + 1) == Descent(q, i))
  {
    var p, q' := Place(q, r, 1), Insert(q, r);
    assert forall k | 0 <= k < |q'| :: q'[k] == if k < p then q[k] else if k == p then r else q[k - 1];
  }

  /** Only the two places beside the new request can turn where there was no turn before. */
  lemma InsertTurns(q: seq<Request>, r: Request)
    requires q != []
    ensures var p, q' := Place(q, r, 1), Insert(q, r);
            Turns(q') == Turns(q) - Flag(Descent(q, p)) + Flag(Descent(q', p)) + Flag(Descent(q', p + 1))
  {
    var p, q' := Place(q, r, 1), Insert(q, r);
    OldDescents(q, r);
    SameTurns(q, q', p);
    if p < |q| { TurnsAfter(q, q', |q|, p + 1); }
  }

  /** A request of a buffer adds no turn, but for the first; a swap request, which goes before
      all buffers without regard to sectors, adds at most two. */
  lemma InsertTurnsBound(q: seq<Request>, r: Request)
    requires r.swap || AllDifferent(q, r)
    ensures Turns(Insert(q, r)) <= if r.swap then Turns(q) + 2 else if Turns(q) == 0 then 1 else Turns(q)
  {
    if q == [] {
      assert Insert(q, r) == [r];
      NoTurn([r], 1);
    } else {
      InsertTurns(q, r);
      if !r.swap {
        var p := Place(q, r, 1);
        if Descent(Insert(q, r), p) { InsertDescent(q, r, p); }
        NoTurn(q, |q|);
      }
    }
  }

  lemma CompleteTurns(q: seq<Request>)
    requires q != []
    ensures Turns(q[1..]) <= Turns(q)
  {
    var rest := q[1..];
    forall i: nat | 1 <= i < |rest| ensures Descent(q, i + 1) == Descent(rest, i) {}
    if rest != [] { TurnsAfter(rest, q, |rest|, 1); }
  }

  datatype Event = Add(r: Request) | Complete

  predicate Possible(q: seq<Request>, e: Event) {
    match e
    case Add(r) => r.swap || AllDifferent(q, r)
    case Complete => q != []
  }

  function Step(q: seq<Request>, e: Event): seq<Request>
    requires Possible(q, e)
  {
    match e
    case Add(r) => Insert(q, r)
    case Complete => q[1..]
  }

  predicate Runs(q: seq<Request>, events: seq<Event>)
    decreases |events|
  {
    events == [] || (Possible(q, events[0]) && Runs(Step(q, events[0]), events[1..]))
  }

  function After(q: seq<Request>, events: seq<Event>): seq<Request>
    requires Runs(q, events)
    decreases |events|
  {
    if events == [] then q else After(Step(q, events[0]), events[1..])
  }

  function SwapsAdded(events: seq<Event>): nat {
    if events == [] then 0
    else Flag(events[0].Add? && events[0].r.swap) + SwapsAdded(events[1..])
  }

  /** Over any run of new requests and completions, the disk never has more turns before it than
      the one it may always have, those of the beginning, and two for each swap request. */
  lemma {:induction false} RunTurns(q: seq<Request>, events: seq<Event>)
    requires Runs(q, events)
    ensures Turns(After(q, events)) <= (if Turns(q) == 0 then 1 else Turns(q)) + 2 * SwapsAdded(events)
    decreases |events|
  {
    if events != [] {
      match events[0] {
        case Add(r) => InsertTurnsBound(q, r);
        case Complete => CompleteTurns(q);
      }
      RunTurns(Step(q, events[0]), events[1..]);
    }
  }

  /** Without swap requests, then, never more than two sweeps. */
  lemma RunOneWay(q: seq<Request>, events: seq<Event>)
    requires OneWay(q) && Runs(q, events) && SwapsAdded(events) == 0
    ensures OneWay(After(q, events))
  {
    RunTurns(q, events);
    OneWayIsOneTurn(q);
    OneWayIsOneTurn(After(q, events));
  }

  /** The request table and the queue of one device that runs through it. */
  class RequestTable {
    const slots: array<Request>
    const next: array<int>       // the next request's slot, -1 at the end
    var current: int             // current_request
    ghost var queue: seq<nat>

    ghost predicate Valid()
      reads this, slots, next
    {
      && slots.Length == next.Length == 32
      && Linked(next[..], current, queue)
      && Reserved(slots[..], queue)
    }

    ghost function Requests(): seq<Request>
      requires Valid()
      reads this, slots, next
    {
      Listed(slots[..], queue)
    }

    constructor ()
      ensures Valid() && queue == [] && fresh(slots) && fresh(next)
    {
      slots := new Request[32](_ => Request(Read, -1, 0, false));
      next := new int[32](_ => -1);
      current, queue := -1, [];
    }

    /** The search of make_request and ll_rw_page: buffers' writes may use the first two thirds
        of the table only. -1 if there is nothing free. */
    method FindSlot(cmd: Command, swap: bool) returns (s: int)
      requires Valid()
      ensures s == -1 || (0 <= s < 32 && s !in queue && (cmd.Write? && !swap ==> s < 21))
      ensures s == -1 ==> forall t: nat | t < (if cmd.Read? || swap then 32 else 21) :: t in queue
    {
      var limit := if cmd.Read? || swap then 32 else 21;
      s := limit - 1;
      while s >= 0 && slots[s].dev >= 0
        invariant -1 <= s < limit && forall t: nat | s < t < limit :: t in queue
      {
        s := s - 1;
      }
    }

    /** make_request and ll_rw_page from the search for a slot on. False if the caller has to
        sleep, which a read has to only when all 32 slots are taken. */
    method Enqueue(r: Request) returns (ok: bool)
      requires Valid() && r.dev >= 0
      modifies this`current, this`queue, slots, next
      ensures Valid() && Requests() == if ok then Insert(old(Requests()), r) else old(Requests())
      ensures !ok ==> forall s: nat | s < (if r.cmd.Read? || r.swap then 32 else 21) :: s in queue
    {
      var s := FindSlot(r.cmd, r.swap);
      if s == -1 { return false; }
      slots[s] := r;
      assert Listed(slots[..], queue) == old(Requests());
      AddRequest(s);
      return true;
    }

    /** add_request. */
    method AddRequest(s: nat)
      requires slots.Length == next.Length == 32 && Linked(next[..], current, queue) && s < 32 && s !in queue
      modifies this`current, this`queue, next
      ensures Linked(next[..], current, queue)
      ensures Listed(slots[..], queue) == Insert(old(Listed(slots[..], queue)), slots[s])
      ensures forall t :: t in queue <==> t in old(queue) || t == s
    {
      if current == -1 {
        next[s] := -1;
        current, queue := s, [s];
        return;
      }
      var tmp;
      ghost var i;
      tmp, i := FindPlace(s);
      ghost var queue' := Inserted(queue, i + 1, s);
      InsertLinked(next[..], current, queue, i, s, queue');
      InsertListed(slots[..], queue, i + 1, s, queue');
      InsertMembers(queue, i + 1, s, queue');
      next[s] := next[tmp];
      next[tmp] := s;
      queue := queue';
    }

    /** The loop: the request after which s goes in. */
    method FindPlace(s: nat) returns (tmp: int, ghost i: nat)
      requires slots.Length == next.Length == 32 && Linked(next[..], current, queue) && s < 32 && queue != []
      ensures i < |queue| && tmp == queue[i] && Place(Listed(slots[..], queue), slots[s], 1) == i + 1
    {
      tmp, i := current, 0;
      ghost var q := Listed(slots[..], queue);
      while next[tmp] != -1 && !StopsBefore(tmp, next[tmp], s)
        invariant i < |queue| && tmp == queue[i] && Place(q, slots[s], 1) == Place(q, slots[s], i + 1)
        decreases |queue| - i
      {
        LinkedNext(next[..], current, queue, i);
        tmp, i := next[tmp], i + 1;
      }
      LinkedNext(next[..], current, queue, i);
    }

    predicate StopsBefore(tmp: nat, follower: nat, s: nat)
      requires tmp < slots.Length && follower < slots.Length && s < slots.Length
      reads slots
    {
      if slots[s].swap then !slots[follower].swap
      else
        && (InOrder(slots[tmp], slots[s]) || !InOrder(slots[tmp], slots[follower]))
        && InOrder(slots[s], slots[follower])
    }

    /** end_request: the slot is free again, and the next request is in service. */
    method EndRequest()
      requires Valid() && queue != []
      modifies this`current, this`queue, slots
      ensures Valid() && Requests() == old(Requests())[1..]
    {
      ghost var slots0, queue0 := slots[..], queue;
      slots[current] := slots[current].(dev := -1);
      current := next[current];
      queue := queue[1..];
      RequestDone(slots0, slots[..], next[..], queue0, queue);
    }
  }

  /** A slot is taken just when it is queued, and the last third holds no buffer's write. */
  ghost predicate Reserved(slots: seq<Request>, queue: seq<nat>) {
    && |slots| == 32
    && (forall s: nat | s < 32 :: slots[s].dev >= 0 <==> s in queue)
    && (forall s: nat | 21 <= s < 32 && slots[s].dev >= 0 && !slots[s].swap :: slots[s].cmd.Read?)
  }

  /** `queue` are the slots met from `current` on. */
  predicate Linked(next: seq<int>, current: int, queue: seq<nat>) {
    && current == (if queue == [] then -1 else queue[0])
    && (forall i: nat | i < |queue| :: queue[i] < |next|)
    && (forall i: nat, j: nat | i < j < |queue| :: queue[i] != queue[j])
    && (forall i: nat, j: nat | i < j < i + 2 && j < |queue| :: next[queue[i]] == queue[j])
    && (queue != [] ==> next[queue[|queue| - 1]] == -1)
  }

  function Listed(slots: seq<Request>, queue: seq<nat>): (q: seq<Request>)
    requires forall i: nat | i < |queue| :: queue[i] < |slots|
    ensures |q| == |queue| && forall i: nat | i < |queue| :: q[i] == slots[queue[i]]
  {
    seq(|queue|, i requires 0 <= i < |queue| => slots[queue[i]])
  }

  lemma LinkedNext(next: seq<int>, current: int, queue: seq<nat>, i: nat)
    requires Linked(next, current, queue) && i < |queue|
    ensures next[queue[i]] == if i + 1 < |queue| then queue[i + 1] else -1
  {
  }

  /** The head's slot is free and the others are queued as before. */
  lemma RequestDone(slots: seq<Request>, slots': seq<Request>, next: seq<int>, queue: seq<nat>, rest: seq<nat>)
    requires queue != [] && rest == queue[1..] && Linked(next, queue[0], queue) && |next| == |slots|
    requires slots' == slots[queue[0] := slots[queue[0]].(dev := -1)] && Reserved(slots, queue)
    ensures Linked(next, next[queue[0]], rest) && Listed(slots', rest) == Listed(slots, queue)[1..]
    ensures Reserved(slots', rest)
  {
    LinkedRest(next, queue, rest);
    RestMembers(queue, rest);
  }

  lemma LinkedRest(next: seq<int>, queue: seq<nat>, rest: seq<nat>)
    requires queue != [] && rest == queue[1..] && Linked(next, queue[0], queue)
    ensures Linked(next, next[queue[0]], rest) && forall i: nat | i < |rest| :: rest[i] != queue[0]
  {
    LinkedNext(next, queue[0], queue, 0);
    assert forall i: nat {:trigger rest[i]} | i < |rest| :: rest[i] == queue[i + 1] && rest[i] != queue[0];
  }

  lemma RestMembers(queue: seq<nat>, rest: seq<nat>)
    requires queue != [] && rest == queue[1..] && forall i: nat, j: nat | i < j < |queue| :: queue[i] != queue[j]
    ensures forall s: nat :: s in rest <==> s in queue && s != queue[0]
  {
    assert queue == [queue[0]] + rest;
    assert forall i: nat {:trigger rest[i]} | i < |rest| :: rest[i] == queue[i + 1] && rest[i] != queue[0];
  }

  predicate IsInsert(ys: seq<nat>, xs: seq<nat>, p: nat, s: nat) {
    && p <= |xs| && |ys| == |xs| + 1
    && (forall k: nat {:trigger ys[k]} | k < |ys| :: ys[k] == if k < p then xs[k] else if k == p then s else xs[k - 1])
  }

  lemma Inserted(xs: seq<nat>, p: nat, s: nat) returns (ys: seq<nat>)
    requires p <= |xs|
    ensures IsInsert(ys, xs, p, s)
  {
    ys := xs[..p] + [s] + xs[p..];
  }

  lemma InsertLinked(next: seq<int>, current: int, queue: seq<nat>, i: nat, s: nat, queue': seq<nat>)
    requires Linked(next, current, queue) && i < |queue| && s < |next| && s !in queue
    requires IsInsert(queue', queue, i + 1, s)
    ensures Linked(next[s := next[queue[i]]][queue[i] := s], current, queue')
  {
    LinkedNext(next, current, queue, i);
    var next' := next[s := next[queue[i]]][queue[i] := s];
    forall k: nat, l: nat | k < l < |queue'| ensures queue'[k] != queue'[l] {
      assert k != i + 1 && l != i + 1 ==> queue[if k <= i then k else k - 1] != queue[if l <= i then l else l - 1];
    }
    forall k: nat | k < |queue'| ensures next'[queue'[k]] == if k + 1 < |queue'| then queue'[k + 1] else -1 {
      if k != i && k != i + 1 { LinkedNext(next, current, queue, if k < i then k else k - 1); }
    }
  }

  lemma InsertMembers(queue: seq<nat>, p: nat, s: nat, queue': seq<nat>)
    requires IsInsert(queue', queue, p, s)
    ensures forall t :: t in queue' <==> t in queue || t == s
  {
    assert queue' == queue[..p] + [s] + queue[p..];
    assert queue == queue[..p] + queue[p..];
  }

  lemma InsertListed(slots: seq<Request>, queue: seq<nat>, p: nat, s: nat, queue': seq<nat>)
    requires (forall i: nat | i < |queue| :: queue[i] < |slots|) && s < |slots| && IsInsert(queue', queue, p, s)
    ensures var q := Listed(slots, queue);
            && (forall i: nat | i < |queue'| :: queue'[i] < |slots|)
            && Listed(slots, queue') == q[..p] + [slots[s]] + q[p..]
  {
  }
}
