/** The two kinds of list of fs/buffer.c that run through the same buffer heads: a circular
    free list of all buffers, and one hash chain for every hash value. Buffers are numbered
    by their place in the start_buffer array, a field of all of them is a sequence, and -1
    is NULL. */
module BufferLists {
  import opened Wrappers

  const NULL: int := -1

  type Links = seq<int>

  function NextIn(c: seq<nat>, i: int): int {
    if 0 <= i + 1 < |c| then c[i + 1] else NULL
  }

  function PrevIn(c: seq<nat>, i: int): int {
    if 0 < i <= |c| then c[i - 1] else NULL
  }

  ghost predicate InArray(n: nat, c: seq<nat>) {
    forall i | 0 <= i < |c| :: c[i] < n
  }

  /** c is a null-terminated doubly linked list starting at `head`. */
  ghost predicate IsChain(next: Links, prev: Links, head: int, c: seq<nat>) {
    && |prev| == |next| && InArray(|next|, c) && Distinct(c) && head == NextIn(c, -1)
    && (forall i | 0 <= i < |c| :: next[c[i]] == NextIn(c, i) && prev[c[i]] == PrevIn(c, i))
  }

  function After(c: seq<nat>, i: nat): nat
    requires i < |c|
  {
    if i + 1 < |c| then c[i + 1] else c[0]
  }

  function Before(c: seq<nat>, i: nat): nat
    requires i < |c|
  {
    if i > 0 then c[i - 1] else c[|c| - 1]
  }

  /** c is the circular free list, starting at free_list. */
  ghost predicate IsRing(next: Links, prev: Links, freeList: int, c: seq<nat>) {
    && |prev| == |next| && InArray(|next|, c) && Distinct(c) && (c != [] ==> freeList == c[0])
    && (forall i | 0 <= i < |c| :: next[c[i]] == After(c, i) && prev[c[i]] == Before(c, i))
  }

  /** The list c without its i-th element. */
  function Cut(c: seq<nat>, i: nat): (d: seq<nat>)
    requires i < |c|
    ensures |d| == |c| - 1 && forall j | 0 <= j < |d| :: d[j] == c[if j < i then j else j + 1]
  {
    c[..i] + c[i + 1..]
  }

  function Without(c: seq<nat>, b: nat): seq<nat> {
    if c == [] then [] else if c[0] == b then c[1..] else [c[0]] + Without(c[1..], b)
  }

  lemma {:induction false} WithoutAt(c: seq<nat>, b: nat, i: nat)
    requires i < |c| && c[i] == b && Distinct(c)
    ensures Without(c, b) == Cut(c, i)
  {
    if i > 0 {
      WithoutAt(c[1..], b, i - 1);
      assert c[1..][..i - 1] == c[1..i] && c[1..][i..] == c[i + 1..];
      assert [c[0]] + c[1..i] == c[..i];
    }
  }

  lemma {:induction false} WithoutAbsent(c: seq<nat>, b: nat)
    requires b !in c
    ensures Without(c, b) == c
  {
    if c != [] { WithoutAbsent(c[1..], b); }
  }

  lemma CutMembers(c: seq<nat>, i: nat, x: nat)
    requires i < |c| && Distinct(c)
    ensures x in Cut(c, i) <==> x in c && x != c[i]
    ensures Distinct(Cut(c, i))
  {
    var d := Cut(c, i);
    if x in c && x != c[i] {
      var j :| 0 <= j < |c| && c[j] == x;
      assert d[if j < i then j else j - 1] == x;
    }
    if x in d {
      var j :| 0 <= j < |d| && d[j] == x;
      assert c[if j < i then j else j + 1] == x;
    }
  }

  /** "if (b->prev) b->prev->next = b->next" with the roles named by the caller. */
  function Relink(field: Links, at: int, to: int): (r: Links)
    ensures |r| == |field|
  {
    if 0 <= at < |field| then field[at := to] else field
  }

  lemma UnlinkChain(next: Links, prev: Links, head: int, c: seq<nat>, i: nat)
    requires IsChain(next, prev, head, c) && i < |c|
    ensures var b := c[i];
      IsChain(Relink(next, prev[b], next[b]), Relink(prev, next[b], prev[b]), if head == b then next[b] else
        head, Cut(c, i))
  {
    var b, d := c[i], Cut(c, i);
    assert next[b] == NextIn(c, i) && prev[b] == PrevIn(c, i);
    CutMembers(c, i, b);
    var next', prev' := Relink(next, prev[b], next[b]), Relink(prev, next[b], prev[b]);
    forall j | 0 <= j < |d| ensures next'[d[j]] == NextIn(d, j) && prev'[d[j]] == PrevIn(d, j) {
      var k := if j < i then j else j + 1;
      assert next[c[k]] == NextIn(c, k) && prev[c[k]] == PrevIn(c, k);
      assert c[k] == PrevIn(c, i) <==> k == i - 1;
      assert c[k] == NextIn(c, i) <==> k == i + 1;
    }
  }

  /** An emptied ring leaves free_list on the buffer just removed, linked to itself. */
  ghost predicate SelfLinked(next: Links, prev: Links, freeList: int, b: nat) {
    b < |next| && |prev| == |next| && freeList == b && next[b] == b && prev[b] == b
  }

  function PrevIndex(c: seq<nat>, i: nat): nat
    requires i < |c|
  {
    if i > 0 then i - 1 else |c| - 1
  }

  function NextIndex(c: seq<nat>, i: nat): nat
    requires i < |c|
  {
    if i + 1 < |c| then i + 1 else 0
  }

  /** Neighbours on the ring without its i-th element. */
  lemma CutNeighbours(c: seq<nat>, i: nat, j: nat)
    requires i < |c| && j < |c| - 1
    ensures var k := if j < i then j else j + 1;
      && After(Cut(c, i), j) == (if k == PrevIndex(c, i) then c[NextIndex(c, i)] else After(c, k))
      && Before(Cut(c, i), j) == (if k == NextIndex(c, i) then c[PrevIndex(c, i)] else Before(c, k))
  {
  }

  lemma UnlinkRingAt(next: Links, prev: Links, freeList: int, c: seq<nat>, i: nat, k: nat)
    requires IsRing(next, prev, freeList, c) && i < |c| && k < |c|
    ensures var b := c[i];
      && Relink(next, prev[b], next[b])[c[k]] == (if k == PrevIndex(c, i) then c[NextIndex(c, i)] else After(c, k))
      && Relink(prev, next[b], prev[b])[c[k]] == (if k == NextIndex(c, i) then c[PrevIndex(c, i)] else Before(c, k))
  {
    var b := c[i];
    assert next[b] == c[NextIndex(c, i)] && prev[b] == c[PrevIndex(c, i)];
    assert next[c[k]] == After(c, k) && prev[c[k]] == Before(c, k);
    assert c[k] == c[PrevIndex(c, i)] <==> k == PrevIndex(c, i);
    assert c[k] == c[NextIndex(c, i)] <==> k == NextIndex(c, i);
  }

  lemma UnlinkRing(next: Links, prev: Links, freeList: int, c: seq<nat>, i: nat)
    requires IsRing(next, prev, freeList, c) && i < |c|
    ensures var b := c[i];
      var next', prev' := Relink(next, prev[b], next[b]), Relink(prev, next[b], prev[b]);
      && IsRing(next', prev', if freeList == b then next'[b] else freeList, Cut(c, i))
      && (|c| == 1 ==> SelfLinked(next', prev', if freeList == b then next'[b] else freeList, b))
  {
    var b, d := c[i], Cut(c, i);
    var next', prev' := Relink(next, prev[b], next[b]), Relink(prev, next[b], prev[b]);
    CutMembers(c, i, b);
    UnlinkRingAt(next, prev, freeList, c, i, i);
    forall j | 0 <= j < |d| ensures next'[d[j]] == After(d, j) && prev'[d[j]] == Before(d, j) {
      CutNeighbours(c, i, j);
      UnlinkRingAt(next, prev, freeList, c, i, if j < i then j else j + 1);
    }
    assert freeList == b <==> i == 0;
  }

  /** b put at the end of the ring, as insert_into_queues does. */
  lemma LinkRing(next: Links, prev: Links, freeList: int, c: seq<nat>, b: nat)
    requires IsRing(next, prev, freeList, c) && b < |next| && b !in c
    requires (c == [] ==> SelfLinked(next, prev, freeList, b))
    ensures 0 <= freeList < |prev|
    ensures var last := prev[freeList];
      && 0 <= last < |next|
      && IsRing(next[b := freeList][last := b], prev[b := last][freeList := b], freeList, c + [b])
  {
    if c != [] {
      assert prev[c[0]] == Before(c, 0);
      var d, last := c + [b], prev[freeList];
      var next', prev' := next[b := freeList][last := b], prev[b := last][freeList := b];
      forall j | 0 <= j < |d| ensures next'[d[j]] == After(d, j) && prev'[d[j]] == Before(d, j) {
        LinkRingAt(next, prev, freeList, c, b, j);
      }
    }
  }

  lemma LinkRingAt(next: Links, prev: Links, freeList: int, c: seq<nat>, b: nat, j: nat)
    requires IsRing(next, prev, freeList, c) && b < |next| && b !in c && c != [] && j <= |c|
    ensures var d, last := c + [b], prev[freeList];
      && 0 <= last < |next|
      && next[b := freeList][last := b][d[j]] == After(d, j)
      && prev[b := last][freeList := b][d[j]] == Before(d, j)
  {
    assert prev[c[0]] == Before(c, 0);
    LinkRingNext(next, c, b, j);
    LinkRingPrev(prev, c, b, j);
  }

  lemma LinkRingNext(next: Links, c: seq<nat>, b: nat, j: nat)
    requires InArray(|next|, c) && Distinct(c) && b < |next| && b !in c && c != [] && j <= |c|
    requires j < |c| ==> next[c[j]] == After(c, j)
    ensures next[b := c[0]][c[|c| - 1] := b][(c + [b])[j]] == After(c + [b], j)
  {
    assert j < |c| ==> c[j] in c;
    assert c[|c| - 1] in c;
  }

  lemma LinkRingPrev(prev: Links, c: seq<nat>, b: nat, j: nat)
    requires InArray(|prev|, c) && Distinct(c) && b < |prev| && b !in c && c != [] && j <= |c|
    requires j < |c| ==> prev[c[j]] == Before(c, j)
    ensures prev[b := c[|c| - 1]][c[0] := b][(c + [b])[j]] == Before(c + [b], j)
  {
    assert j < |c| ==> c[j] in c;
    assert c[0] in c;
  }

  lemma LinkChain(next: Links, prev: Links, head: int, c: seq<nat>, b: nat)
    requires IsChain(next, prev, head, c) && b < |next| && b !in c
    ensures IsChain(next[b := head], Relink(prev[b := NULL], head, b), b, [b] + c)
  {
    var next', prev', d := next[b := head], Relink(prev[b := NULL], head, b), [b] + c;
    forall j | 0 <= j < |d| ensures next'[d[j]] == NextIn(d, j) && prev'[d[j]] == PrevIn(d, j) {
      if j > 0 {
        assert d[j] == c[j - 1] && c[j - 1] in c;
        assert next[c[j - 1]] == NextIn(c, j - 1) && prev[c[j - 1]] == PrevIn(c, j - 1);
      }
    }
  }

  /** A list is not disturbed by changes to other nodes. */
  lemma ChainFrame(next: Links, prev: Links, next': Links, prev': Links, head: int, c: seq<nat>)
    requires IsChain(next, prev, head, c) && |next'| == |next| == |prev'|
    requires forall i | 0 <= i < |c| :: next'[c[i]] == next[c[i]] && prev'[c[i]] == prev[c[i]]
    ensures IsChain(next', prev', head, c)
  {
  }

  /** All chains of a hash table; no buffer is on two of them. */
  ghost predicate Chained(next: Links, prev: Links, hash: seq<int>, chains: seq<seq<nat>>) {
    && |hash| == |chains|
    && (forall k | 0 <= k < |chains| :: IsChain(next, prev, hash[k], chains[k]))
    && DisjointChains(chains)
  }

  /** Unlinking inside chain k leaves chain j alone. */
  lemma OtherChain(next: Links, prev: Links, hash: seq<int>, chains: seq<seq<nat>>, k: nat, i: nat, j: nat)
    requires Chained(next, prev, hash, chains) && k < |chains| && i < |chains[k]| && j < |chains| && j != k
    ensures var b := chains[k][i];
      IsChain(Relink(next, prev[b], next[b]), Relink(prev, next[b], prev[b]), hash[j], chains[j])
  {
    var c := chains[k];
    var b := c[i];
    assert IsChain(next, prev, hash[k], c) && IsChain(next, prev, hash[j], chains[j]);
    assert next[b] == NextIn(c, i) && prev[b] == PrevIn(c, i);
    var next', prev' := Relink(next, prev[b], next[b]), Relink(prev, next[b], prev[b]);
    forall m | 0 <= m < |chains[j]|
      ensures next'[chains[j][m]] == next[chains[j][m]] && prev'[chains[j][m]] == prev[chains[j][m]]
    {
      assert chains[j][m] in chains[j];
      assert i > 0 ==> c[i - 1] in c;
      assert i + 1 < |c| ==> c[i + 1] in c;
    }
    ChainFrame(next, prev, next', prev', hash[j], chains[j]);
  }

  ghost predicate DisjointChains(chains: seq<seq<nat>>) {
    forall j, k, x: nat | 0 <= j < |chains| && 0 <= k < |chains| && x in chains[j] && x in chains[k] :: j == k
  }

  lemma ChainedUnlink(next: Links, prev: Links, hash: seq<int>, chains: seq<seq<nat>>, k: nat, i: nat)
    requires Chained(next, prev, hash, chains) && k < |chains| && i < |chains[k]|
    ensures var b := chains[k][i];
      var next', prev' := Relink(next, prev[b], next[b]), Relink(prev, next[b], prev[b]);
      && next'[b] == next[b]
      && Chained(next', prev', if hash[k] == b then hash[k := next[b]] else hash, chains[k := Cut(chains[k], i)])
  {
    var c := chains[k];
    var b := c[i];
    var next', prev' := Relink(next, prev[b], next[b]), Relink(prev, next[b], prev[b]);
    var hash', chains' := if hash[k] == b then hash[k := next[b]] else hash, chains[k := Cut(c, i)];
    assert IsChain(next, prev, hash[k], c);
    UnlinkChain(next, prev, hash[k], c, i);
    assert next'[b] == next[b] by {
      assert prev[b] == PrevIn(c, i);
      assert i > 0 ==> c[i - 1] != c[i];
    }
    forall j | 0 <= j < |chains'| ensures IsChain(next', prev', hash'[j], chains'[j]) {
      if j != k { OtherChain(next, prev, hash, chains, k, i, j); }
    }
    assert DisjointChains(chains') by {
      forall x: nat ensures x in Cut(c, i) ==> x in c { CutMembers(c, i, x); }
    }
  }

  lemma ChainedLink(next: Links, prev: Links, hash: seq<int>, chains: seq<seq<nat>>, k: nat, b: nat)
    requires Chained(next, prev, hash, chains) && k < |chains| && b < |next| && b < |prev|
    requires forall j | 0 <= j < |chains| :: b !in chains[j]
    ensures Chained(next[b := hash[k]], Relink(prev[b := NULL], hash[k], b), hash[k := b], chains[k := [b] + chains[k]])
  {
    var c := chains[k];
    var next', prev' := next[b := hash[k]], Relink(prev[b := NULL], hash[k], b);
    assert IsChain(next, prev, hash[k], c);
    LinkChain(next, prev, hash[k], c, b);
    forall j | 0 <= j < |chains| && j != k ensures IsChain(next', prev', hash[j], chains[j]) {
      assert IsChain(next, prev, hash[j], chains[j]);
      forall m | 0 <= m < |chains[j]| ensures chains[j][m] != hash[k] && chains[j][m] != b {
        assert chains[j][m] in chains[j];
        if c != [] { assert c[0] in c; }
      }
      ChainFrame(next, prev, next', prev', hash[j], chains[j]);
    }
    assert DisjointChains(chains[k := [b] + c]);
  }
}
