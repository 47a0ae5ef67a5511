/** remove_from_queues, insert_into_queues, find_buffer, buffer_init and the victim search of
    getblk in fs/buffer.c. */
module BufferQueues {
  import opened Wrappers
  import opened BufferLists

  const NR_HASH: nat := 307

  /** Bitwise exclusive or. */
  function Xor(a: nat, b: nat): nat {
    if a == 0 then b else (if a % 2 == b % 2 then 0 else 1) + 2 * Xor(a / 2, b / 2)
  }

  function Hash(dev: nat, block: nat): (h: nat)
    ensures h < NR_HASH
  {
    Xor(dev, block) % NR_HASH
  }

  /** The list fields of all buffer heads, the hash table and the head of the free list. */
  datatype Lists = Lists(dev: seq<nat>, blocknr: seq<nat>, next: Links, prev: Links, nextFree: Links, prevFree: Links,
                         hash: seq<int>, freeList: int)

  ghost predicate Sized(s: Lists) {
    |s.dev| == |s.blocknr| == |s.next| == |s.prev| == |s.nextFree| == |s.prevFree| && |s.hash| == NR_HASH
  }

  function Key(s: Lists, b: nat): nat
    requires b < |s.dev| && b < |s.blocknr|
  {
    Hash(s.dev[b], s.blocknr[b])
  }

  /** The buffers `on` are queued: each exactly once on the ring, those with a device exactly
      once on the chain of their hash value and on no other, the rest on none. */
  ghost predicate Queued(s: Lists, ring: seq<nat>, chains: seq<seq<nat>>, on: set<nat>) {
    && Sized(s) && |chains| == NR_HASH
    && OnRing(s, ring, on)
    && Chained(s.next, s.prev, s.hash, chains) && Filed(s.dev, s.blocknr, chains, on)
    && Unhashed(s, on)
  }

  ghost predicate OnRing(s: Lists, ring: seq<nat>, on: set<nat>) {
    IsRing(s.nextFree, s.prevFree, s.freeList, ring) && forall b: nat :: b in ring <==> b in on && b < |s.dev|
  }

  /** A buffer without a device is on no chain. */
  ghost predicate Unhashed(s: Lists, on: set<nat>)
    requires Sized(s)
  {
    forall b: nat | b < |s.dev| && b in on && s.dev[b] == 0 :: s.next[b] == NULL && s.prev[b] == NULL
  }

  /** The chain on which each queued buffer is found. */
  ghost predicate Filed(dev: seq<nat>, blocknr: seq<nat>, chains: seq<seq<nat>>, on: set<nat>)
    requires |dev| == |blocknr|
  {
    && |chains| == NR_HASH
    && forall k: nat, b: nat | k < NR_HASH && b < |dev| ::
          b in chains[k] <==> b in on && dev[b] != 0 && Hash(dev[b], blocknr[b]) == k
  }

  function Removed(s: Lists, b: nat): Lists
    requires Sized(s) && b < |s.dev|
  {
    var next, prev := Relink(s.next, s.prev[b], s.next[b]), Relink(s.prev, s.next[b], s.prev[b]);
    var nextFree := Relink(s.nextFree, s.prevFree[b], s.nextFree[b]);
    var prevFree := Relink(s.prevFree, s.nextFree[b], s.prevFree[b]);
    s.(next := next, prev := prev, nextFree := nextFree, prevFree := prevFree,
       hash := if s.hash[Key(s, b)] == b then s.hash[Key(s, b) := next[b]] else s.hash,
       freeList := if s.freeList == b then nextFree[b] else s.freeList)
  }

  function Inserted(s: Lists, b: nat): Lists
    requires Sized(s) && b < |s.dev| && 0 <= s.freeList < |s.dev| && 0 <= s.prevFree[s.freeList] < |s.dev|
  {
    var last := s.prevFree[s.freeList];
    var s1 := s.(nextFree := s.nextFree[b := s.freeList][last := b],
                 prevFree := s.prevFree[b := last][s.freeList := b]);
    if s.dev[b] == 0 then s1.(next := s.next[b := NULL], prev := s.prev[b := NULL])
    else s1.(next := s.next[b := s.hash[Key(s, b)]], prev := Relink(s.prev[b := NULL], s.hash[Key(s, b)], b),
             hash := s.hash[Key(s, b) := b])
  }

  function ChainsWithout(s: Lists, chains: seq<seq<nat>>, b: nat): seq<seq<nat>>
    requires b < |s.dev| && b < |s.blocknr| && |chains| == NR_HASH
  {
    chains[Key(s, b) := Without(chains[Key(s, b)], b)]
  }

  lemma FiledWithout(dev: seq<nat>, blocknr: seq<nat>, chains: seq<seq<nat>>, on: set<nat>, b: nat, k: nat)
    requires |dev| == |blocknr| && Filed(dev, blocknr, chains, on) && b < |dev| && k == Hash(dev[b], blocknr[b])
    requires Distinct(chains[k])
    ensures Filed(dev, blocknr, chains[k := Without(chains[k], b)], on - {b})
  {
    var c := chains[k];
    forall x: nat ensures x in Without(c, b) <==> x in c && x != b { WithoutMembers(c, b, x); }
  }

  lemma WithoutMembers(c: seq<nat>, b: nat, x: nat)
    requires Distinct(c)
    ensures x in Without(c, b) <==> x in c && x != b
    ensures Distinct(Without(c, b))
  {
    if b in c {
      var i :| 0 <= i < |c| && c[i] == b;
      WithoutAt(c, b, i);
      CutMembers(c, i, x);
    } else {
      WithoutAbsent(c, b);
    }
  }

  /** Unlinking b, on the chain of key k or on none, by its own two pointers. */
  lemma ChainedWithout(next: Links, prev: Links, hash: seq<int>, chains: seq<seq<nat>>, k: nat, b: nat)
    requires Chained(next, prev, hash, chains) && k < |chains| && b < |next| && |prev| == |next|
    requires b in chains[k] || (next[b] == NULL && prev[b] == NULL)
    ensures var next', prev' := Relink(next, prev[b], next[b]), Relink(prev, next[b], prev[b]);
      Chained(next', prev', if hash[k] == b then hash[k := next'[b]] else hash, chains[k := Without(chains[k], b)])
  {
    var c := chains[k];
    assert IsChain(next, prev, hash[k], c);
    if b in c {
      var i :| 0 <= i < |c| && c[i] == b;
      ChainedUnlink(next, prev, hash, chains, k, i);
      WithoutAt(c, b, i);
    } else {
      WithoutAbsent(c, b);
      assert chains[k := c] == chains;
      assert c != [] ==> c[0] in c;
    }
  }

  /** Nodes outside chain k keep their links when b is unlinked from it. */
  lemma LooseKept(next: Links, prev: Links, hash: seq<int>, chains: seq<seq<nat>>, k: nat, b: nat, x: nat)
    requires Chained(next, prev, hash, chains) && k < |chains| && b < |next| && |prev| == |next| && x < |next|
    requires x !in chains[k]
    requires b in chains[k] || (next[b] == NULL && prev[b] == NULL)
    ensures Relink(next, prev[b], next[b])[x] == next[x] && Relink(prev, next[b], prev[b])[x] == prev[x]
  {
    var c := chains[k];
    assert IsChain(next, prev, hash[k], c);
    if b in c {
      var i :| 0 <= i < |c| && c[i] == b;
      assert next[b] == NextIn(c, i) && prev[b] == PrevIn(c, i);
    }
  }

  lemma RemoveFromRing(s: Lists, ring: seq<nat>, on: set<nat>, b: nat)
    requires Sized(s) && OnRing(s, ring, on) && b in on && b < |s.dev|
    ensures OnRing(Removed(s, b), Without(ring, b), on - {b})
    ensures Without(ring, b) == [] ==>
      SelfLinked(Removed(s, b).nextFree, Removed(s, b).prevFree, Removed(s, b).freeList, b)
  {
    RingWithout(s.nextFree, s.prevFree, s.freeList, ring, b);
    forall x: nat ensures x in Without(ring, b) <==> x in on - {b} && x < |s.dev| { WithoutMembers(ring, b, x); }
  }

  lemma RemoveFromChain(s: Lists, chains: seq<seq<nat>>, on: set<nat>, b: nat)
    requires Sized(s) && Chained(s.next, s.prev, s.hash, chains) && Filed(s.dev, s.blocknr, chains, on)
    requires Unhashed(s, on)
    requires b in on && b < |s.dev|
    ensures Chained(Removed(s, b).next, Removed(s, b).prev, Removed(s, b).hash, ChainsWithout(s, chains, b))
    ensures Filed(s.dev, s.blocknr, ChainsWithout(s, chains, b), on - {b})
  {
    var k := Key(s, b);
    assert b in chains[k] || (s.next[b] == NULL && s.prev[b] == NULL);
    ChainedWithout(s.next, s.prev, s.hash, chains, k, b);
    assert IsChain(s.next, s.prev, s.hash[k], chains[k]);
    FiledWithout(s.dev, s.blocknr, chains, on, b, k);
  }

  lemma RemoveKeepsUnhashed(s: Lists, chains: seq<seq<nat>>, on: set<nat>, b: nat)
    requires Sized(s) && Chained(s.next, s.prev, s.hash, chains) && Filed(s.dev, s.blocknr, chains, on)
    requires Unhashed(s, on)
    requires b in on && b < |s.dev|
    ensures Unhashed(Removed(s, b), on - {b})
  {
    var k, s' := Key(s, b), Removed(s, b);
    assert b in chains[k] || (s.next[b] == NULL && s.prev[b] == NULL);
    forall x: nat | x < |s.dev| && x in on - {b} && s.dev[x] == 0 ensures s'.next[x] == NULL && s'.prev[x] == NULL {
      assert x !in chains[k];
      LooseKept(s.next, s.prev, s.hash, chains, k, b, x);
    }
  }

  /** remove_from_queues takes b off its two lists and leaves all else in place and order. */
  lemma RemoveQueued(s: Lists, ring: seq<nat>, chains: seq<seq<nat>>, on: set<nat>, b: nat)
    requires Queued(s, ring, chains, on) && b in on && b < |s.dev|
    ensures Queued(Removed(s, b), Without(ring, b), ChainsWithout(s, chains, b), on - {b})
    ensures Without(ring, b) == [] ==>
      SelfLinked(Removed(s, b).nextFree, Removed(s, b).prevFree, Removed(s, b).freeList, b)
  {
    RemoveFromRing(s, ring, on, b);
    RemoveFromChain(s, chains, on, b);
    RemoveKeepsUnhashed(s, chains, on, b);
  }

  lemma RingWithout(next: Links, prev: Links, freeList: int, ring: seq<nat>, b: nat)
    requires IsRing(next, prev, freeList, ring) && b in ring && b < |next|
    ensures var next', prev' := Relink(next, prev[b], next[b]), Relink(prev, next[b], prev[b]);
      && IsRing(next', prev', if freeList == b then next'[b] else freeList, Without(ring, b))
      && (Without(ring, b) == [] ==> SelfLinked(next', prev', if freeList == b then next'[b] else freeList, b))
  {
    var i :| 0 <= i < |ring| && ring[i] == b;
    WithoutAt(ring, b, i);
    RingCut(next, prev, freeList, ring, b, i, Without(ring, b));
  }

  lemma RingCut(next: Links, prev: Links, freeList: int, ring: seq<nat>, b: nat, i: nat, rest: seq<nat>)
    requires IsRing(next, prev, freeList, ring) && i < |ring| && ring[i] == b && b < |next| && rest == Cut(ring, i)
    ensures var next', prev' := Relink(next, prev[b], next[b]), Relink(prev, next[b], prev[b]);
      && IsRing(next', prev', if freeList == b then next'[b] else freeList, rest)
      && (rest == [] ==> SelfLinked(next', prev', if freeList == b then next'[b] else freeList, b))
  {
    UnlinkRing(next, prev, freeList, ring, i);
    assert rest == [] ==> |ring| == 1;
  }

  function ChainsWith(s: Lists, chains: seq<seq<nat>>, b: nat): seq<seq<nat>>
    requires b < |s.dev| && b < |s.blocknr| && |chains| == NR_HASH
  {
    if s.dev[b] == 0 then chains else chains[Key(s, b) := [b] + chains[Key(s, b)]]
  }

  lemma InsertIntoRing(s: Lists, ring: seq<nat>, on: set<nat>, b: nat)
    requires Sized(s) && OnRing(s, ring, on) && b !in on && b < |s.dev|
    requires ring == [] ==> SelfLinked(s.nextFree, s.prevFree, s.freeList, b)
    ensures 0 <= s.freeList < |s.dev| && 0 <= s.prevFree[s.freeList] < |s.dev|
    ensures OnRing(Inserted(s, b), ring + [b], on + {b})
  {
    LinkRing(s.nextFree, s.prevFree, s.freeList, ring, b);
  }

  lemma InsertIntoChain(s: Lists, chains: seq<seq<nat>>, on: set<nat>, b: nat)
    requires Sized(s) && Chained(s.next, s.prev, s.hash, chains) && Filed(s.dev, s.blocknr, chains, on)
    requires Unhashed(s, on)
    requires b !in on && b < |s.dev| && 0 <= s.freeList < |s.dev| && 0 <= s.prevFree[s.freeList] < |s.dev|
    ensures Chained(Inserted(s, b).next, Inserted(s, b).prev, Inserted(s, b).hash, ChainsWith(s, chains, b))
    ensures Filed(s.dev, s.blocknr, ChainsWith(s, chains, b), on + {b})
    ensures Unhashed(Inserted(s, b), on + {b})
  {
    var k, s' := Key(s, b), Inserted(s, b);
    assert forall j | 0 <= j < |chains| :: b !in chains[j];
    if s.dev[b] != 0 {
      ChainedLink(s.next, s.prev, s.hash, chains, k, b);
      forall x: nat | x < |s.dev| && x in on && s.dev[x] == 0 ensures s'.next[x] == NULL && s'.prev[x] == NULL {
        assert x !in chains[k];
        LinkedLoose(s.next, s.prev, s.hash, chains, k, b, x);
      }
    } else {
      UnfiledFrame(s.next, s.prev, s.hash, chains, b);
    }
  }

  /** insert_into_queues puts b last on the ring and first on the chain of its key. */
  lemma InsertQueued(s: Lists, ring: seq<nat>, chains: seq<seq<nat>>, on: set<nat>, b: nat)
    requires Queued(s, ring, chains, on) && b !in on && b < |s.dev|
    requires ring == [] ==> SelfLinked(s.nextFree, s.prevFree, s.freeList, b)
    ensures 0 <= s.freeList < |s.dev| && 0 <= s.prevFree[s.freeList] < |s.dev|
    ensures Queued(Inserted(s, b), ring + [b], ChainsWith(s, chains, b), on + {b})
  {
    InsertIntoRing(s, ring, on, b);
    InsertIntoChain(s, chains, on, b);
  }

  lemma LinkedLoose(next: Links, prev: Links, hash: seq<int>, chains: seq<seq<nat>>, k: nat, b: nat, x: nat)
    requires Chained(next, prev, hash, chains) && k < |chains| && b < |next| && |prev| == |next| && x < |next|
    requires x !in chains[k] && x != b
    ensures next[b := hash[k]][x] == next[x] && Relink(prev[b := NULL], hash[k], b)[x] == prev[x]
  {
    var c := chains[k];
    assert IsChain(next, prev, hash[k], c);
    assert c != [] ==> c[0] in c;
  }

  /** Clearing the links of a buffer that is on no chain. */
  lemma UnfiledFrame(next: Links, prev: Links, hash: seq<int>, chains: seq<seq<nat>>, b: nat)
    requires Chained(next, prev, hash, chains) && b < |next| && b < |prev| && forall j | 0 <= j < |chains| ::
      b !in chains[j]
    ensures Chained(next[b := NULL], prev[b := NULL], hash, chains)
  {
    forall j | 0 <= j < |chains| ensures IsChain(next[b := NULL], prev[b := NULL], hash[j], chains[j]) {
      forall m | 0 <= m < |chains[j]| ensures chains[j][m] != b { assert chains[j][m] in chains[j]; }
      ChainFrame(next, prev, next[b := NULL], prev[b := NULL], hash[j], chains[j]);
    }
  }

  /** All buffers are queued, and a device block is in at most one of them. */
  ghost predicate Consistent(s: Lists, ring: seq<nat>, chains: seq<seq<nat>>) {
    Queued(s, ring, chains, Everyone(|s.dev|))
  }

  ghost function Everyone(n: nat): (r: set<nat>)
    ensures forall b: nat :: b in r <==> b < n
  {
    if n == 0 then {} else Everyone(n - 1) + {n - 1}
  }

  predicate Holds(s: Lists, b: nat, dev: nat, block: nat) {
    b < |s.dev| && b < |s.blocknr| && s.dev[b] == dev && s.blocknr[b] == block
  }

  class BufferTable {
    const dev: array<nat>
    const blocknr: array<nat>
    const count: array<nat>
    const dirt: array<bool>
    const lock: array<bool>
    const next: array<int>
    const prev: array<int>
    const nextFree: array<int>
    const prevFree: array<int>
    const hashTable: array<int>
    var freeList: int
    ghost var ring: seq<nat>
    ghost var chains: seq<seq<nat>>

    ghost function Repr(): set<object> {
      {this, dev, blocknr, count, dirt, lock, next, prev, nextFree, prevFree, hashTable}
    }

    ghost predicate Valid() {
      && dev.Length == blocknr.Length == count.Length == next.Length == prev.Length == nextFree.Length ==
        prevFree.Length
      && dirt.Length == lock.Length == dev.Length && hashTable.Length == NR_HASH
      && dev != blocknr && dev != count && blocknr != count && dirt != lock
      && next != prev && next != nextFree && next != prevFree && next != hashTable
      && prev != nextFree && prev != prevFree && prev != hashTable
      && nextFree != prevFree && nextFree != hashTable && prevFree != hashTable
    }

    ghost function Abs(): Lists
      reads Repr()
    {
      Lists(dev[..], blocknr[..], next[..], prev[..], nextFree[..], prevFree[..], hashTable[..], freeList)
    }

    /** Memory for n buffer heads. */
    constructor (n: nat)
      ensures Valid() && dev.Length == n && fresh(Repr())
    {
      dev, blocknr, count := new nat[n], new nat[n], new nat[n];
      dirt, lock := new bool[n], new bool[n];
      next, prev, nextFree, prevFree := new int[n], new int[n], new int[n], new int[n];
      hashTable := new int[NR_HASH];
      freeList, ring, chains := 0, [], [];
    }

    /** buffer_init, once it knows how many buffers fit. */
    method BufferInit()
      requires Valid() && dev.Length > 0
      modifies Repr()
      ensures Consistent(Abs(), ring, chains)
      ensures forall b | 0 <= b < dev.Length :: dev[b] == 0 && count[b] == 0 && !dirt[b] && !lock[b]
    {
      var h := 0;
      while h < dev.Length
        invariant 0 <= h <= dev.Length && Valid()
        invariant forall b | 0 <= b < h :: dev[b] == 0 && count[b] == 0 && !dirt[b] && !lock[b]
        invariant forall b | 0 <= b < h ::
          next[b] == NULL && prev[b] == NULL && nextFree[b] == b + 1 && prevFree[b] == b - 1
      {
        dev[h], count[h], dirt[h], lock[h] := 0, 0, false, false;
        next[h], prev[h], prevFree[h], nextFree[h] := NULL, NULL, h - 1, h + 1;
        h := h + 1;
      }
      freeList := 0;
      prevFree[freeList] := dev.Length - 1;
      nextFree[dev.Length - 1] := freeList;
      EmptyHash();
      ring := seq(dev.Length, i => i);
      FreshLists(Abs(), ring, chains);
    }

    method EmptyHash()
      requires Valid()
      modifies hashTable, `chains
      ensures |chains| == NR_HASH && forall k | 0 <= k < NR_HASH :: hashTable[k] == NULL && chains[k] == []
    {
      var i := 0;
      while i < NR_HASH
        invariant 0 <= i <= NR_HASH && forall k | 0 <= k < i :: hashTable[k] == NULL
      {
        hashTable[i] := NULL;
        i := i + 1;
      }
      chains := seq(NR_HASH, _ => []);
    }

    /** remove_from_queues. */
    method RemoveFromQueues(b: nat, ghost on: set<nat>)
      requires Valid() && b < dev.Length && b in on && Queued(Abs(), ring, chains, on)
      modifies next, prev, nextFree, prevFree, hashTable, `freeList, `ring, `chains
      ensures Abs() == Removed(old(Abs()), b) && Queued(Abs(), ring, chains, on - {b})
      ensures ring == Without(old(ring), b) && chains == ChainsWithout(old(Abs()), old(chains), b)
      ensures ring == [] ==> SelfLinked(nextFree[..], prevFree[..], freeList, b)
    {
      ghost var s := Abs();
      RemoveQueued(s, ring, chains, on, b);
      InBounds(s, ring, chains, on, b);
      UnlinkHash(b);
      UnlinkFree(b);
      ring, chains := Without(ring, b), ChainsWithout(s, chains, b);
    }

    /** remove_from_queues: remove from hash-queue. */
    method UnlinkHash(b: nat)
      requires Valid() && b < dev.Length && -1 <= next[b] < prev.Length && -1 <= prev[b] < next.Length
      requires prev[b] != b && next[b] != b
      modifies next, prev, hashTable
      ensures var s := old(Abs());
        var next', prev' := Relink(s.next, s.prev[b], s.next[b]), Relink(s.prev, s.next[b], s.prev[b]);
        Abs() == s.(next := next', prev := prev',
                    hash := if s.hash[Key(s, b)] == b then s.hash[Key(s, b) := next'[b]] else s.hash)
    {
      ghost var s := Abs();
      if next[b] != NULL { prev[next[b]] := prev[b]; }
      assert prev[..] == Relink(s.prev, s.next[b], s.prev[b]);
      if prev[b] != NULL { next[prev[b]] := next[b]; }
      assert next[..] == Relink(s.next, s.prev[b], s.next[b]);
      var k := Hash(dev[b], blocknr[b]);
      if hashTable[k] == b { hashTable[k] := next[b]; }
    }

    /** remove_from_queues: remove from free list. */
    method UnlinkFree(b: nat)
      requires Valid() && b < dev.Length && 0 <= nextFree[b] < prevFree.Length && 0 <= prevFree[b] < nextFree.Length
      requires prevFree[b] == b ==> nextFree[b] == b
      modifies nextFree, prevFree, `freeList
      ensures var s := old(Abs());
        var next' := Relink(s.nextFree, s.prevFree[b], s.nextFree[b]);
        var prev' := Relink(s.prevFree, s.nextFree[b], s.prevFree[b]);
        Abs() == s.(nextFree := next', prevFree := prev', freeList := if s.freeList == b then next'[b] else s.freeList)
    {
      ghost var s := Abs();
      nextFree[prevFree[b]] := nextFree[b];
      assert nextFree[..] == Relink(s.nextFree, s.prevFree[b], s.nextFree[b]);
      prevFree[nextFree[b]] := prevFree[b];
      assert prevFree[..] == Relink(s.prevFree, s.nextFree[b], s.prevFree[b]);
      if freeList == b { freeList := nextFree[b]; }
    }

    /** insert_into_queues. */
    method InsertIntoQueues(b: nat, ghost on: set<nat>)
      requires Valid() && b < dev.Length && b !in on && Queued(Abs(), ring, chains, on)
      requires ring == [] ==> SelfLinked(nextFree[..], prevFree[..], freeList, b)
      modifies next, prev, nextFree, prevFree, hashTable, `ring, `chains
      ensures Queued(Abs(), ring, chains, on + {b})
      ensures ring == old(ring) + [b] && chains == ChainsWith(old(Abs()), old(chains), b)
      ensures dev[..] == old(dev[..]) && blocknr[..] == old(blocknr[..])
    {
      ghost var s := Abs();
      InsertQueued(s, ring, chains, on, b);
      LinkFree(b);
      LinkHash(b);
      ring, chains := ring + [b], ChainsWith(s, chains, b);
      assert Abs() == Inserted(s, b);
    }

    /** insert_into_queues: put at end of free list. */
    method LinkFree(b: nat)
      requires Valid() && b < dev.Length && 0 <= freeList < dev.Length && 0 <= prevFree[freeList] < dev.Length
      modifies nextFree, prevFree
      ensures var s := old(Abs());
        var last := s.prevFree[s.freeList];
        Abs() == s.(nextFree := s.nextFree[b := s.freeList][last := b],
                    prevFree := s.prevFree[b := last][s.freeList := b])
    {
      ghost var s := Abs();
      nextFree[b] := freeList;
      prevFree[b] := prevFree[freeList];
      nextFree[prevFree[freeList]] := b;
      assert nextFree[..] == s.nextFree[b := s.freeList][s.prevFree[s.freeList] := b];
      prevFree[freeList] := b;
      assert prevFree[..] == s.prevFree[b := s.prevFree[s.freeList]][s.freeList := b];
    }

    /** insert_into_queues: put the buffer in its hash-queue if it has a device. */
    method LinkHash(b: nat)
      requires Valid() && b < dev.Length
      modifies next, prev, hashTable
      ensures var s := old(Abs());
        Abs() == if s.dev[b] == 0 then s.(next := s.next[b := NULL], prev := s.prev[b := NULL])
                 else s.(next := s.next[b := s.hash[Key(s, b)]],
                         prev := Relink(s.prev[b := NULL], s.hash[Key(s, b)], b),
                         hash := s.hash[Key(s, b) := b])
    {
      ghost var s := Abs();
      prev[b] := NULL;
      next[b] := NULL;
      if dev[b] == 0 {
        assert next[..] == s.next[b := NULL] && prev[..] == s.prev[b := NULL];
        return;
      }
      var k := Hash(dev[b], blocknr[b]);
      next[b] := hashTable[k];
      assert next[..] == s.next[b := s.hash[k]] && prev[..] == s.prev[b := NULL];
      hashTable[k] := b;
      if 0 <= next[b] < prev.Length { prev[next[b]] := b; }
    }

    /** find_buffer: the buffer that holds the block, if there is one. */
    method FindBuffer(d: nat, block: nat) returns (r: int)
      requires Valid() && d != 0 && Consistent(Abs(), ring, chains)
      ensures r == NULL || (0 <= r < dev.Length && Holds(Abs(), r, d, block))
      ensures r == NULL ==> forall b: nat :: !Holds(Abs(), b, d, block)
    {
      ghost var s := Abs();
      var k := Hash(d, block);
      ghost var c, i := chains[k], 0;
      ChainAt(s, ring, chains, k);
      r := hashTable[k];
      while r != NULL
        invariant 0 <= i <= |c| && r == NextIn(c, i - 1)
        invariant forall j | 0 <= j < i :: !Holds(s, c[j], d, block)
        decreases |c| - i
      {
        assert c[i] in c && r == c[i] && s.next[c[i]] == NextIn(c, i);
        if dev[r] == d && blocknr[r] == block { return; }
        r := next[r];
        i := i + 1;
      }
      NotOnChain(s, ring, chains, d, block);
    }

    /** getblk's look at one buffer of the free list; `stop` is its break. */
    method Consider(tmp: nat, bh: int, ghost i: nat) returns (r: int, stop: bool)
      requires Valid() && i < |ring| && tmp == ring[i] && tmp < dev.Length
      requires Chosen(ring, count[..], Badnesses(dirt[..], lock[..]), i, bh)
      ensures Chosen(ring, count[..], Badnesses(dirt[..], lock[..]), i + 1, r)
      ensures stop ==> Chosen(ring, count[..], Badnesses(dirt[..], lock[..]), |ring|, r)
    {
      ghost var cnt, bad := count[..], Badnesses(dirt[..], lock[..]);
      ChosenStep(ring, cnt, bad, i, bh);
      assert bh != NULL ==> 0 <= bh < dev.Length;
      if count[tmp] != 0 { return bh, false; }
      if bh != NULL && Badness(dirt[tmp], lock[tmp]) >= Badness(dirt[bh], lock[bh]) { return bh, false; }
      r, stop := tmp, Badness(dirt[tmp], lock[tmp]) == 0;
      if stop { ChosenZero(ring, cnt, bad, i + 1, r); }
    }

    /** getblk's search for a buffer to reuse: the first on the free list among the
        unreferenced ones of least badness; NULL when every buffer is in use. */
    method ChooseVictim() returns (r: int)
      requires Valid() && IsRing(nextFree[..], prevFree[..], freeList, ring) && ring != []
      ensures Chosen(ring, count[..], Badnesses(dirt[..], lock[..]), |ring|, r)
      ensures LeastBad(ring, count[..], dirt[..], lock[..], r)
    {
      r := NULL;
      var tmp := freeList;
      ghost var i := 0;
      while true
        invariant 0 <= i < |ring| && tmp == ring[i]
        invariant Chosen(ring, count[..], Badnesses(dirt[..], lock[..]), i, r)
        decreases |ring| - i
      {
        NextOnRing(nextFree[..], prevFree[..], freeList, ring, i);
        var stop;
        r, stop := Consider(tmp, r, i);
        if stop { break; }
        tmp := nextFree[tmp];
        i := i + 1;
        if tmp == freeList { break; }
      }
      ChosenIs(ring, count[..], dirt[..], lock[..], r);
    }

    method SetIdentity(b: nat, d: nat, block: nat, ghost on: set<nat>)
      requires Valid() && b < dev.Length && b !in on && Queued(Abs(), ring, chains, on)
      modifies dev, blocknr
      ensures Queued(Abs(), ring, chains, on)
      ensures dev[..] == old(dev[..])[b := d] && blocknr[..] == old(blocknr[..])[b := block]
    {
      ghost var s := Abs();
      dev[b] := d;
      blocknr[b] := block;
      Refile(s, Abs(), ring, chains, on, b);
    }

    /** b leaves both lists, changes its block, and is put in again. */
    method Move(b: nat, d: nat, block: nat, ghost on: set<nat>)
      requires Valid() && b < dev.Length && b in on && Queued(Abs(), ring, chains, on)
      modifies next, prev, nextFree, prevFree, hashTable, dev, blocknr, `freeList, `ring, `chains
      ensures Queued(Abs(), ring, chains, on) && ring == Without(old(ring), b) + [b]
      ensures dev[..] == old(dev[..])[b := d] && blocknr[..] == old(blocknr[..])[b := block]
    {
      assert on - {b} + {b} == on;
      RemoveFromQueues(b, on);
      SetIdentity(b, d, block, on - {b});
      InsertIntoQueues(b, on - {b});
    }

    /** The last lines of getblk: b, which nobody uses, becomes the buffer of a new block.
        The caller has just found that no buffer holds that block. */
    method Reassign(b: nat, d: nat, block: nat)
      requires Valid() && b < dev.Length && d != 0 && Consistent(Abs(), ring, chains)
      requires count[b] == 0 && !dirt[b] && !lock[b] && forall x: nat :: !Holds(Abs(), x, d, block)
      modifies Repr()
      ensures Consistent(Abs(), ring, chains) && Holds(Abs(), b, d, block) && count[b] == 1
      ensures dev[..] == old(dev[..])[b := d] && blocknr[..] == old(blocknr[..])[b := block]
      ensures count[..] == old(count[..])[b := 1]
      ensures ring == Without(old(ring), b) + [b]
    {
      ghost var all := Everyone(dev.Length);
      count[b] := 1;
      dirt[b] := false;
      assert Queued(Abs(), ring, chains, all);
      Move(b, d, block, all);
      assert dev[..] == old(dev[..])[b := d] && blocknr[..] == old(blocknr[..])[b := block];
      assert count[..] == old(count[..])[b := 1];
    }
  }

  /** A block that is not on its chain is in no buffer. */
  lemma NotOnChain(s: Lists, ring: seq<nat>, chains: seq<seq<nat>>, d: nat, block: nat)
    requires Consistent(s, ring, chains) && d != 0
    requires forall j | 0 <= j < |chains[Hash(d, block)]| :: !Holds(s, chains[Hash(d, block)][j], d, block)
    ensures forall b: nat :: !Holds(s, b, d, block)
  {
    var c := chains[Hash(d, block)];
    forall b: nat ensures !Holds(s, b, d, block) {
      assert Holds(s, b, d, block) ==> b in c;
    }
  }

  lemma ChainAt(s: Lists, ring: seq<nat>, chains: seq<seq<nat>>, k: nat)
    requires Consistent(s, ring, chains) && k < NR_HASH
    ensures IsChain(s.next, s.prev, s.hash[k], chains[k]) && forall j: nat | j < |chains[k]| :: chains[k][j] < |s.dev|
  {
    forall j: nat | j < |chains[k]| ensures chains[k][j] < |s.dev| { assert chains[k][j] in chains[k]; }
  }

  /** BADNESS(bh). */
  function Badness(dirt: bool, lock: bool): nat {
    (if dirt then 2 else 0) + (if lock then 1 else 0)
  }

  function Badnesses(dirt: seq<bool>, lock: seq<bool>): (r: seq<nat>)
    requires |dirt| == |lock|
    ensures |r| == |dirt| && forall b | 0 <= b < |r| :: r[b] == Badness(dirt[b], lock[b])
  {
    seq(|dirt|, b requires 0 <= b < |dirt| => Badness(dirt[b], lock[b]))
  }

  /** r is the choice among the first n buffers of the free list: none if all are in use,
      else the first of least badness among those that are not. */
  ghost predicate Chosen(ring: seq<nat>, count: seq<nat>, bad: seq<nat>, n: nat, r: int) {
    n <= |ring| && |count| == |bad| && InArray(|bad|, ring) &&
    if r == NULL then forall j | 0 <= j < n :: count[ring[j]] > 0
    else exists at: nat :: at < n && ChosenAt(ring, count, bad, n, r, at)
  }

  /** None if all buffers of the list are in use. Else one that is not: a dirty one only if all such
      are dirty, a locked one only if those that are as dirty are locked, and the first of these. */
  ghost predicate LeastBad(ring: seq<nat>, count: seq<nat>, dirt: seq<bool>, lock: seq<bool>, r: int)
    requires |dirt| == |lock| == |count| && InArray(|count|, ring)
  {
    && (r == NULL <==> forall j: nat | j < |ring| :: count[ring[j]] > 0)
    && (r != NULL ==> exists at: nat :: at < |ring| && FirstLeast(ring, count, dirt, lock, at, r))
  }

  ghost predicate FirstLeast(ring: seq<nat>, count: seq<nat>, dirt: seq<bool>, lock: seq<bool>, at: nat, r: int)
    requires |dirt| == |lock| == |count| && InArray(|count|, ring) && at < |ring|
  {
    && r == ring[at] && count[r] == 0
    && (forall j: nat | j < |ring| && count[ring[j]] == 0 ::
          (dirt[r] ==> dirt[ring[j]]) && (dirt[r] == dirt[ring[j]] && lock[r] ==> lock[ring[j]]))
    && (forall j: nat | j < at && count[ring[j]] == 0 :: dirt[ring[j]] != dirt[r] || lock[ring[j]] != lock[r])
  }

  /** That is what choosing by badness comes to. */
  lemma ChosenIs(ring: seq<nat>, count: seq<nat>, dirt: seq<bool>, lock: seq<bool>, r: int)
    requires |dirt| == |lock| == |count| && Chosen(ring, count, Badnesses(dirt, lock), |ring|, r)
    ensures LeastBad(ring, count, dirt, lock, r)
  {
    var bad := Badnesses(dirt, lock);
    if r != NULL {
      var at: nat :| at < |ring| && ChosenAt(ring, count, bad, |ring|, r, at);
      assert FirstLeast(ring, count, dirt, lock, at, r);
    }
  }

  ghost predicate ChosenAt(ring: seq<nat>, count: seq<nat>, bad: seq<nat>, n: nat, r: int, at: nat)
    requires at < n <= |ring| && |count| == |bad| && InArray(|bad|, ring)
  {
    && r == ring[at] && count[r] == 0
    && (forall j | 0 <= j < at :: count[ring[j]] > 0 || bad[ring[j]] > bad[r])
    && (forall j | at < j < n :: count[ring[j]] > 0 || bad[ring[j]] >= bad[r])
  }

  /** The search fails only if every buffer is in use. */
  lemma NoneChosen(s: Lists, ring: seq<nat>, count: seq<nat>, bad: seq<nat>, b: nat)
    requires OnRing(s, ring, Everyone(|s.dev|)) && Chosen(ring, count, bad, |ring|, NULL) && b < |s.dev|
    ensures b < |count| && count[b] > 0
  {
    assert b in Everyone(|s.dev|);
    assert b in ring;
  }

  lemma ChosenStep(ring: seq<nat>, count: seq<nat>, bad: seq<nat>, i: nat, r: int)
    requires Chosen(ring, count, bad, i, r) && i < |ring|
    ensures var better := r == NULL || !(0 <= r < |bad|) || bad[ring[i]] < bad[r];
            Chosen(ring, count, bad, i + 1, if count[ring[i]] == 0 && better then ring[i] else r)
  {
    if r == NULL {
      if count[ring[i]] == 0 { assert ChosenAt(ring, count, bad, i + 1, ring[i], i); }
    } else {
      var at: nat :| at < i && ChosenAt(ring, count, bad, i, r, at);
      if count[ring[i]] == 0 && bad[ring[i]] < bad[r] {
        assert ChosenAt(ring, count, bad, i + 1, ring[i], i);
      } else {
        assert ChosenAt(ring, count, bad, i + 1, r, at);
      }
    }
  }

  /** Nothing beats badness zero: the rest of the list need not be looked at. */
  lemma ChosenZero(ring: seq<nat>, count: seq<nat>, bad: seq<nat>, n: nat, r: int)
    requires Chosen(ring, count, bad, n, r) && 0 <= r < |bad| && bad[r] == 0
    ensures Chosen(ring, count, bad, |ring|, r)
  {
    var at: nat :| at < n && ChosenAt(ring, count, bad, n, r, at);
    assert ChosenAt(ring, count, bad, |ring|, r, at);
  }

  /** buffer_init's lists: everybody on the ring, nobody on a chain. */
  lemma FreshLists(s: Lists, ring: seq<nat>, chains: seq<seq<nat>>)
    requires Sized(s) && |ring| == |s.dev| > 0 && |chains| == NR_HASH && s.freeList == 0
    requires forall i | 0 <= i < |ring| :: ring[i] == i && s.dev[i] == 0 && s.next[i] == NULL && s.prev[i] == NULL
    requires forall i | 0 <= i < |ring| :: s.nextFree[i] == (if i + 1 < |ring| then i + 1 else 0)
    requires forall i | 0 <= i < |ring| :: s.prevFree[i] == (if i > 0 then i - 1 else |ring| - 1)
    requires forall k | 0 <= k < NR_HASH :: s.hash[k] == NULL && chains[k] == []
    ensures Consistent(s, ring, chains)
  {
    FreshRing(s.nextFree, s.prevFree, ring);
    assert Chained(s.next, s.prev, s.hash, chains);
  }

  lemma FreshRing(next: Links, prev: Links, ring: seq<nat>)
    requires |ring| == |next| == |prev| > 0 && forall i | 0 <= i < |ring| :: ring[i] == i
    requires forall i | 0 <= i < |ring| :: next[i] == (if i + 1 < |ring| then i + 1 else 0)
    requires forall i | 0 <= i < |ring| :: prev[i] == (if i > 0 then i - 1 else |ring| - 1)
    ensures IsRing(next, prev, 0, ring) && forall b: nat :: b in ring <==> b < |ring|
  {
    forall i | 0 <= i < |ring| ensures next[ring[i]] == After(ring, i) && prev[ring[i]] == Before(ring, i) {
      assert ring[i] == i;
    }
    forall b: nat ensures b in ring <==> b < |ring| {
      if b < |ring| { assert ring[b] == b; }
    }
  }

  lemma NextOnRing(next: Links, prev: Links, freeList: int, ring: seq<nat>, i: nat)
    requires IsRing(next, prev, freeList, ring) && i < |ring|
    ensures ring[i] < |next| && next[ring[i]] == After(ring, i) && freeList == ring[0]
    ensures i + 1 < |ring| ==> ring[i + 1] != ring[0]
  {
    assert next[ring[i]] == After(ring, i);
  }

  lemma RefileChains(dev: seq<nat>, blocknr: seq<nat>, dev': seq<nat>, blocknr': seq<nat>, chains: seq<seq<nat>>,
      on: set<nat>, b: nat)
    requires |dev| == |blocknr| == |dev'| == |blocknr'| && Filed(dev, blocknr, chains, on) && b !in on
    requires forall x: nat | x < |dev| && x != b :: dev'[x] == dev[x] && blocknr'[x] == blocknr[x]
    ensures Filed(dev', blocknr', chains, on)
  {
    forall k: nat, x: nat | k < NR_HASH && x < |dev|
      ensures x in chains[k] <==> x in on && dev'[x] != 0 && Hash(dev'[x], blocknr'[x]) == k
    {
      assert x == b && b in chains[k] ==> b in on;
    }
  }

  /** A buffer that is on no list may change its identity. */
  lemma Refile(s: Lists, s': Lists, ring: seq<nat>, chains: seq<seq<nat>>, on: set<nat>, b: nat)
    requires Queued(s, ring, chains, on) && b !in on && b < |s.dev| && Sized(s')
    requires s' == s.(dev := s'.dev, blocknr := s'.blocknr) && |s'.dev| == |s.dev|
    requires forall x: nat | x < |s.dev| && x != b :: s'.dev[x] == s.dev[x] && s'.blocknr[x] == s.blocknr[x]
    ensures Queued(s', ring, chains, on)
  {
    RefileChains(s.dev, s.blocknr, s'.dev, s'.blocknr, chains, on, b);
    assert OnRing(s', ring, on);
    assert Unhashed(s', on);
  }

  /** The neighbours of a queued buffer are buffers. */
  lemma InBounds(s: Lists, ring: seq<nat>, chains: seq<seq<nat>>, on: set<nat>, b: nat)
    requires Queued(s, ring, chains, on) && b in on && b < |s.dev|
    ensures -1 <= s.next[b] < |s.dev| && -1 <= s.prev[b] < |s.dev|
    ensures 0 <= s.nextFree[b] < |s.dev| && 0 <= s.prevFree[b] < |s.dev|
    ensures s.prev[b] != b && s.next[b] != b
    ensures s.prevFree[b] == b ==> s.nextFree[b] == b
  {
    assert b in ring;
    var i :| 0 <= i < |ring| && ring[i] == b;
    assert s.nextFree[b] == After(ring, i) && s.prevFree[b] == Before(ring, i);
    if s.dev[b] != 0 {
      var c := chains[Key(s, b)];
      assert b in c;
      var j :| 0 <= j < |c| && c[j] == b;
      assert IsChain(s.next, s.prev, s.hash[Key(s, b)], c);
      assert s.next[b] == NextIn(c, j) && s.prev[b] == PrevIn(c, j);
    }
  }
}
