/** The bookkeeping of the kernel's bucket allocator: one page per bucket, cut into objects of
    one size, with the list of free objects threaded through the free objects themselves.
    Addresses are numbers and 0 is the null pointer; a descriptor's fields are maps from its
    address. */
module BucketPages {
  import opened Wrappers

  /** Words by address: memory, or one field of all descriptors. */
  type Words = map<nat, nat>

  /** Which object an address is: number `i` in the page of descriptor `d`. */
  datatype Place = Place(d: nat, i: nat, size: nat)

  function Objects(size: nat): nat
    requires size > 0
  {
    4096 / size
  }

  function At(page: nat, size: nat, i: nat): nat {
    page + i * size
  }

  function PageOf(a: nat): nat {
    a - a % 4096
  }

  predicate Page(p: nat) {
    p > 0 && p % 4096 == 0
  }

  function Word(mem: Words, a: nat): nat {
    if a in mem then mem[a] else 0
  }

  /** `free` are the numbers of the objects met from freeptr on, last first, each holding the
      address of the next; together with the objects handed out they are all the page has
      room for. */
  predicate Bucket(mem: Words, page: nat, freeptr: nat, refcnt: nat, size: nat, free: seq<nat>)
    requires size > 0
  {
    && freeptr == (if free == [] then 0 else At(page, size, free[|free| - 1]))
    && Distinct(free)
    && (forall i: nat | i < |free| :: free[i] < Objects(size))
    && (forall i: nat, j: nat | i < j < i + 2 && j < |free| ::
          Word(mem, At(page, size, free[j])) == At(page, size, free[i]))
    && (free != [] ==> Word(mem, At(page, size, free[0])) == 0)
    && |free| + refcnt == Objects(size)
  }

  /** Every descriptor in use (`at` says for which of the nine sizes) describes its bucket. */
  ghost predicate Buckets(mem: Words, page: Words, size: Words, freeptr: Words, refcnt: Words, at: Words,
      free: map<nat, seq<nat>>)
  {
    && (forall d {:trigger d in at} | d in at ::
          d in page && d in size && d in freeptr && d in refcnt && d in free && 16 <= size[d] <= 4096)
    && (forall d {:trigger Bucket(mem, page[d], freeptr[d], refcnt[d], size[d], free[d])} | d in at ::
          Bucket(mem, page[d], freeptr[d], refcnt[d], size[d], free[d]))
  }

  predicate Homed(page: Words, at: Words, home: Words, p: nat) {
    p in home && home[p] in at && home[p] in page && page[home[p]] == p
  }

  /** Bucket pages (each the `home` of one descriptor), descriptor pages and the system's free
      pages are all different. */
  ghost predicate Apart(page: Words, at: Words, pages: set<nat>, descPages: set<nat>, home: Words)
  {
    && (forall p {:trigger p in pages} | p in pages :: Page(p) && p !in descPages && p !in home)
    && (forall p {:trigger p in descPages} | p in descPages :: Page(p) && p !in home)
    && (forall p {:trigger Homed(page, at, home, p)} | p in home :: Homed(page, at, home, p))
    && (forall d {:trigger d in at} | d in at :: d in page && Page(page[d]) && page[d] in home && home[page[d]] == d)
  }

  /** `owner` are the objects handed out and not given back: exactly those not on a free list. */
  ghost predicate Owned(page: Words, size: Words, at: Words, free: map<nat, seq<nat>>, owner: map<nat, Place>)
  {
    && (forall a {:trigger OwnedBy(page, size, at, free, a, owner[a])} | a in owner ::
          OwnedBy(page, size, at, free, a, owner[a]))
    && (forall a {:trigger a in owner} | a in owner :: owner[a].d in at)
    && (forall d {:trigger d in at} | d in at :: d in page && d in size && size[d] > 0 && d in free)
    && (forall d, i: nat {:trigger Out(at, size, free, d, i)} | Out(at, size, free, d, i) && d in page ::
          At(page[d], size[d], i) in owner && owner[At(page[d], size[d], i)] == Place(d, i, size[d]))
  }

  predicate Out(at: Words, size: Words, free: map<nat, seq<nat>>, d: nat, i: nat) {
    d in at && d in size && size[d] > 0 && d in free && i < Objects(size[d]) && i !in free[d]
  }

  predicate OwnedBy(page: Words, size: Words, at: Words, free: map<nat, seq<nat>>, a: nat, o: Place)
  {
    && o.d in at && o.d in page && o.d in size && size[o.d] > 0 && o.d in free
    && o.size == size[o.d]
    && a == At(page[o.d], o.size, o.i)
    && o.i < Objects(o.size)
    && o.i !in free[o.d]
  }

  lemma InPageOf(page: nat, size: nat, i: nat)
    requires Page(page) && size > 0 && i < Objects(size)
    ensures PageOf(At(page, size, i)) == page <= At(page, size, i) && At(page, size, i) + size <= page + 4096
  {
    Fits(size, i);
  }

  lemma Grows(i: nat, n: nat, size: nat)
    requires i <= n
    ensures i * size <= n * size
  {
    assert (n - i) * size == n * size - i * size;
  }

  lemma Fits(size: nat, i: nat)
    requires size > 0 && i < Objects(size)
    ensures i * size + size <= 4096
  {
    var n := 4096 / size;
    assert n * size == 4096 - 4096 % size;
    Grows(i + 1, n, size);
    assert (i + 1) * size == i * size + size;
  }

  lemma AtInjective(page: nat, size: nat, i: nat, j: nat)
    requires size > 0 && i != j
    ensures At(page, size, i) + size <= At(page, size, j) || At(page, size, j) + size <= At(page, size, i)
  {
    if i < j { assert (i + 1) * size <= j * size; } else { assert (j + 1) * size <= i * size; }
  }

  lemma Separate(p: nat, size: nat, i: nat, q: nat, size': nat, j: nat)
    requires Page(p) && size > 0 && i < Objects(size) && Page(q) && size' > 0 && j < Objects(size')
    requires p != q || (size == size' && i != j)
    ensures At(p, size, i) + size <= At(q, size', j) || At(q, size', j) + size' <= At(p, size, i)
  {
    InPageOf(p, size, i);
    InPageOf(q, size', j);
    if p == q { AtInjective(p, size, i, j); }
  }

  lemma TwoPages(page: Words, at: Words, pages: set<nat>, descPages: set<nat>, home: Words, d: nat, e: nat)
    requires Apart(page, at, pages, descPages, home) && d in at && e in at && d in page && e in page
    ensures Page(page[d]) && Page(page[e]) && page[d] !in pages && (d != e ==> page[d] != page[e])
  {
  }

  /** Live objects lie inside one page that the system does not consider free, and no two of
      them share a byte. */
  lemma LiveObjects(page: Words, size: Words, at: Words, free: map<nat, seq<nat>>, owner: map<nat, Place>,
      pages: set<nat>, descPages: set<nat>, home: Words, a: nat, b: nat)
    requires Owned(page, size, at, free, owner) && Apart(page, at, pages, descPages, home) && a in owner && b in owner
    ensures a + owner[a].size <= PageOf(a) + 4096 && PageOf(a) !in pages
    ensures a != b ==> a + owner[a].size <= b || b + owner[b].size <= a
  {
    var o, u := owner[a], owner[b];
    assert OwnedBy(page, size, at, free, a, o) && OwnedBy(page, size, at, free, b, u);
    TwoPages(page, at, pages, descPages, home, o.d, u.d);
    InPageOf(page[o.d], o.size, o.i);
    if a != b { Separate(page[o.d], o.size, o.i, page[u.d], u.size, u.i); }
  }

  function Room(n: nat): (r: set<nat>)
    ensures |r| == n && forall x: nat :: x in r <==> x < n
  {
    if n == 0 then {} else Room(n - 1) + {n - 1}
  }

  function Members(xs: seq<nat>): set<nat> {
    set x | x in xs
  }

  lemma {:induction false} MembersSize(xs: seq<nat>)
    requires Distinct(xs)
    ensures |Members(xs)| == |xs|
  {
    if xs != [] {
      var rest := xs[1..];
      forall i: nat, j: nat | i < j < |rest| ensures rest[i] != rest[j] { assert xs[i + 1] != xs[j + 1]; }
      MembersSize(rest);
      assert xs[0] !in rest;
      assert xs == [xs[0]] + rest;
      assert Members(xs) == Members(rest) + {xs[0]};
    }
  }

  /** A list of n different numbers below n has them all. */
  lemma Pigeonhole(xs: seq<nat>, n: nat)
    requires Distinct(xs) && |xs| >= n && forall i: nat | i < |xs| :: xs[i] < n
    ensures |xs| == n && forall x: nat | x < n :: x in xs
  {
    MembersSize(xs);
    assert Members(xs) <= Room(n);
    assert Room(n) == Members(xs) + (Room(n) - Members(xs));
    forall x: nat | x < n ensures x in xs { assert x in Room(n); }
  }

  /** refcnt counts the objects handed out: it is 0 only if nobody has one. */
  lemma AllBack(mem: Words, page: Words, size: Words, freeptr: Words, refcnt: Words, at: Words,
      free: map<nat, seq<nat>>, owner: map<nat, Place>, d: nat)
    requires Buckets(mem, page, size, freeptr, refcnt, at, free) && Owned(page, size, at, free, owner) && d in at
    requires refcnt[d] == 0
    ensures forall a | a in owner :: owner[a].d != d
  {
    assert Bucket(mem, page[d], freeptr[d], refcnt[d], size[d], free[d]);
    Pigeonhole(free[d], Objects(size[d]));
    forall a | a in owner ensures owner[a].d != d { assert OwnedBy(page, size, at, free, a, owner[a]); }
  }

  lemma BucketFrame(mem: Words, mem': Words, page: nat, freeptr: nat, refcnt: nat, size: nat, free: seq<nat>)
    requires size > 0 && Bucket(mem, page, freeptr, refcnt, size, free)
    requires forall i: nat | i < |free| :: Word(mem', At(page, size, free[i])) == Word(mem, At(page, size, free[i]))
    ensures Bucket(mem', page, freeptr, refcnt, size, free)
  {
  }

  /** A free object shares no byte with a live one. */
  lemma FreeElsewhere(page: Words, size: Words, at: Words, free: map<nat, seq<nat>>, owner: map<nat, Place>,
      pages: set<nat>, descPages: set<nat>, home: Words, obj: nat, d: nat, i: nat)
    requires Apart(page, at, pages, descPages, home) && Owned(page, size, at, free, owner) && obj in owner
    requires d in at && d in free && i in free[d] && i < Objects(size[d])
    ensures var f := At(page[d], size[d], i); f + size[d] <= obj || obj + owner[obj].size <= f
  {
    var o := owner[obj];
    assert OwnedBy(page, size, at, free, obj, o);
    TwoPages(page, at, pages, descPages, home, o.d, d);
    Separate(page[d], size[d], i, page[o.d], o.size, o.i);
  }

  /** Whatever the users store in their objects, the free lists stay as they are. */
  lemma StoreBuckets(mem: Words, page: Words, size: Words, freeptr: Words, refcnt: Words, at: Words,
      free: map<nat, seq<nat>>, owner: map<nat, Place>, pages: set<nat>, descPages: set<nat>, home: Words, obj: nat,
      a: nat, v: nat)
    requires Buckets(mem, page, size, freeptr, refcnt, at, free) && Apart(page, at, pages, descPages, home)
    requires Owned(page, size, at, free, owner)
    requires obj in owner && obj <= a && a + 4 <= obj + owner[obj].size
    ensures Buckets(mem[a := v], page, size, freeptr, refcnt, at, free)
  {
    forall d | d in at ensures Bucket(mem[a := v], page[d], freeptr[d], refcnt[d], size[d], free[d]) {
      assert Bucket(mem, page[d], freeptr[d], refcnt[d], size[d], free[d]);
      forall i: nat | i < |free[d]| ensures At(page[d], size[d], free[d][i]) != a {
        FreeElsewhere(page, size, at, free, owner, pages, descPages, home, obj, d, free[d][i]);
      }
      BucketFrame(mem, mem[a := v], page[d], freeptr[d], refcnt[d], size[d], free[d]);
    }
  }

  predicate IsPush(ys: seq<nat>, xs: seq<nat>, x: nat) {
    |ys| == |xs| + 1 && ys[|xs|] == x && forall j: nat | j < |xs| :: ys[j] == xs[j]
  }

  lemma PushMembers(ys: seq<nat>, xs: seq<nat>, x: nat)
    requires IsPush(ys, xs, x)
    ensures forall z :: z in ys <==> z in xs || z == x
  {
    assert ys == xs + [x];
  }

  lemma TakeBucket(mem: Words, page: nat, freeptr: nat, refcnt: nat, size: nat, free: seq<nat>, free': seq<nat>,
      i: nat)
    requires size > 0 && Bucket(mem, page, freeptr, refcnt, size, free) && IsPush(free, free', i)
    ensures freeptr == At(page, size, i) && Bucket(mem, page, Word(mem, freeptr), refcnt + 1, size, free')
  {
    if free' != [] { assert Word(mem, At(page, size, i)) == At(page, size, free[|free'| - 1]); }
  }

  /** malloc takes the first free object of bucket d. */
  lemma TakeBuckets(mem: Words, page: Words, size: Words, freeptr: Words, refcnt: Words, at: Words,
      free: map<nat, seq<nat>>, d: nat, free': seq<nat>, i: nat)
    requires Buckets(mem, page, size, freeptr, refcnt, at, free) && d in at && IsPush(free[d], free', i)
    ensures freeptr[d] == At(page[d], size[d], i)
    ensures Buckets(mem, page, size, freeptr[d := Word(mem, freeptr[d])], refcnt[d := refcnt[d] + 1], at,
                    free[d := free'])
  {
    TakeBucket(mem, page[d], freeptr[d], refcnt[d], size[d], free[d], free', i);
    OneBucket(mem, page, size, freeptr, refcnt, at, free, d, Word(mem, freeptr[d]), refcnt[d] + 1, free');
  }

  lemma TakeOwned(page: Words, size: Words, at: Words, free: map<nat, seq<nat>>, owner: map<nat, Place>,
      pages: set<nat>, descPages: set<nat>, home: Words, d: nat, free': seq<nat>, i: nat)
    requires Owned(page, size, at, free, owner) && Apart(page, at, pages, descPages, home)
    requires d in at && IsPush(free[d], free', i) && i !in free' && i < Objects(size[d])
    ensures var r := At(page[d], size[d], i);
            r !in owner && Owned(page, size, at, free[d := free'], owner[r := Place(d, i, size[d])])
  {
    var r := At(page[d], size[d], i);
    var owner' := owner[r := Place(d, i, size[d])];
    PushMembers(free[d], free', i);
    forall a | a in owner ensures a != r && OwnedBy(page, size, at, free[d := free'], a, owner[a]) {
      assert OwnedBy(page, size, at, free, a, owner[a]);
      FreeElsewhere(page, size, at, free, owner, pages, descPages, home, a, d, i);
    }
    forall e, j: nat | Out(at, size, free[d := free'], e, j)
      ensures At(page[e], size[e], j) in owner' && owner'[At(page[e], size[e], j)] == Place(e, j, size[e])
    {
      assert Out(at, size, free, e, j) || (e == d && j == i);
    }
  }

  lemma PutBucket(mem: Words, page: nat, freeptr: nat, refcnt: nat, size: nat, free: seq<nat>, i: nat,
      free': seq<nat>)
    requires size > 0 && Bucket(mem, page, freeptr, refcnt, size, free) && refcnt > 0 && i < Objects(size) && i !in free
    requires Word(mem, At(page, size, i)) == freeptr && IsPush(free', free, i)
    ensures Bucket(mem, page, At(page, size, i), refcnt - 1, size, free')
  {
  }

  /** free_s puts an object first on its bucket's list, writing the link into the object. */
  lemma PutBuckets(mem: Words, page: Words, size: Words, freeptr: Words, refcnt: Words, at: Words,
      free: map<nat, seq<nat>>, owner: map<nat, Place>, pages: set<nat>, descPages: set<nat>, home: Words, obj: nat,
      free': seq<nat>)
    requires Buckets(mem, page, size, freeptr, refcnt, at, free) && Apart(page, at, pages, descPages, home)
    requires Owned(page, size, at, free, owner)
    requires obj in owner && IsPush(free', free[owner[obj].d], owner[obj].i)
    ensures var d := owner[obj].d;
            refcnt[d] > 0 &&
            Buckets(mem[obj := freeptr[d]], page, size, freeptr[d := obj], refcnt[d := refcnt[d] - 1], at,
                    free[d := free'])
  {
    var o := owner[obj];
    var d, mem' := o.d, mem[obj := freeptr[o.d]];
    LiveCounted(mem, page, size, freeptr, refcnt, at, free, owner, obj);
    StoreBuckets(mem, page, size, freeptr, refcnt, at, free, owner, pages, descPages, home, obj, obj, freeptr[d]);
    PutBucket(mem', page[d], freeptr[d], refcnt[d], o.size, free[d], o.i, free');
    OneBucket(mem', page, size, freeptr, refcnt, at, free, d, obj, refcnt[d] - 1, free');
  }

  lemma LiveCounted(mem: Words, page: Words, size: Words, freeptr: Words, refcnt: Words, at: Words,
      free: map<nat, seq<nat>>, owner: map<nat, Place>, obj: nat)
    requires Buckets(mem, page, size, freeptr, refcnt, at, free) && Owned(page, size, at, free, owner) && obj in owner
    ensures OwnedBy(page, size, at, free, obj, owner[obj]) && refcnt[owner[obj].d] > 0
  {
    assert OwnedBy(page, size, at, free, obj, owner[obj]);
    if refcnt[owner[obj].d] == 0 { AllBack(mem, page, size, freeptr, refcnt, at, free, owner, owner[obj].d); }
  }

  lemma OneBucket(mem: Words, page: Words, size: Words, freeptr: Words, refcnt: Words, at: Words,
      free: map<nat, seq<nat>>, d: nat, freeptr': nat, refcnt': nat, free': seq<nat>)
    requires Buckets(mem, page, size, freeptr, refcnt, at, free) && d in at
    requires Bucket(mem, page[d], freeptr', refcnt', size[d], free')
    ensures Buckets(mem, page, size, freeptr[d := freeptr'], refcnt[d := refcnt'], at, free[d := free'])
  {
  }

  lemma PutOwned(page: Words, size: Words, at: Words, free: map<nat, seq<nat>>, owner: map<nat, Place>,
      pages: set<nat>, descPages: set<nat>, home: Words, obj: nat, free': seq<nat>)
    requires Owned(page, size, at, free, owner) && Apart(page, at, pages, descPages, home)
    requires obj in owner && IsPush(free', free[owner[obj].d], owner[obj].i)
    ensures Owned(page, size, at, free[owner[obj].d := free'], owner - {obj})
  {
    var o := owner[obj];
    assert OwnedBy(page, size, at, free, obj, o);
    PushMembers(free', free[o.d], o.i);
    forall a | a in owner && a != obj ensures OwnedBy(page, size, at, free[o.d := free'], a, owner[a]) {
      assert OwnedBy(page, size, at, free, a, owner[a]);
    }
    forall e, i: nat | Out(at, size, free[o.d := free'], e, i)
      ensures At(page[e], size[e], i) in owner - {obj} && owner[At(page[e], size[e], i)] == Place(e, i, size[e])
    {
      assert Out(at, size, free, e, i);
      TwoPages(page, at, pages, descPages, home, e, o.d);
      Separate(page[e], size[e], i, page[o.d], o.size, o.i);
    }
  }

  function Downward(n: nat): (xs: seq<nat>)
    ensures |xs| == n && forall i: nat | i < n :: xs[i] == n - 1 - i
  {
    seq(n, i requires 0 <= i < n => n - 1 - i)
  }

  /** The chain of free objects that malloc writes into a new page. */
  predicate Carved(mem: Words, page: nat, size: nat, n: nat) {
    && (forall i: nat, j: nat | i < j < i + 2 && j < n :: Word(mem, At(page, size, i)) == At(page, size, j))
    && (n > 0 ==> Word(mem, At(page, size, n - 1)) == 0)
  }

  ghost predicate SameOutside(mem: Words, mem': Words, page: nat) {
    forall a: nat | a < page || page + 4096 <= a :: Word(mem', a) == Word(mem, a)
  }

  lemma OtherPage(mem: Words, mem': Words, p: nat, page: nat, freeptr: nat, refcnt: nat, size: nat, free: seq<nat>)
    requires size > 0 && Bucket(mem, page, freeptr, refcnt, size, free) && Page(page) && Page(p) && page != p
    requires SameOutside(mem, mem', p)
    ensures Bucket(mem', page, freeptr, refcnt, size, free)
  {
    forall i: nat | i < |free| ensures Word(mem', At(page, size, free[i])) == Word(mem, At(page, size, free[i])) {
      InPageOf(page, size, free[i]);
    }
    BucketFrame(mem, mem', page, freeptr, refcnt, size, free);
  }

  lemma CarvedBucket(mem: Words, page: nat, size: nat)
    requires 0 < size <= 4096 && Carved(mem, page, size, Objects(size))
    ensures Bucket(mem, page, page, 0, size, Downward(Objects(size)))
  {
    assert Objects(size) >= 1 && At(page, size, 0) == page;
  }

  lemma NewBuckets(mem: Words, mem': Words, page: Words, size: Words, freeptr: Words, refcnt: Words, at: Words,
      free: map<nat, seq<nat>>, pages: set<nat>, descPages: set<nat>, home: Words, d: nat, k: nat, z: nat, p: nat)
    requires Buckets(mem, page, size, freeptr, refcnt, at, free) && Apart(page, at, pages, descPages, home)
    requires p in pages && d !in at && 16 <= z <= 4096
    requires SameOutside(mem, mem', p) && Carved(mem', p, z, Objects(z))
    ensures Buckets(mem', page[d := p], size[d := z], freeptr[d := p], refcnt[d := 0], at[d := k],
        free[d := Downward(Objects(z))])
  {
    CarvedBucket(mem', p, z);
    forall e | e in at ensures Bucket(mem', page[e], freeptr[e], refcnt[e], size[e], free[e]) {
      assert Page(page[e]) && Page(p) && page[e] != p;
      OtherPage(mem, mem', p, page[e], freeptr[e], refcnt[e], size[e], free[e]);
    }
  }

  lemma NewOwned(page: Words, size: Words, at: Words, free: map<nat, seq<nat>>, owner: map<nat, Place>, d: nat,
      k: nat, z: nat, p: nat)
    requires Owned(page, size, at, free, owner) && d !in at && 16 <= z <= 4096
    ensures Owned(page[d := p], size[d := z], at[d := k], free[d := Downward(Objects(z))], owner)
  {
    var page', size', at', free' := page[d := p], size[d := z], at[d := k], free[d := Downward(Objects(z))];
    forall a | a in owner ensures OwnedBy(page', size', at', free', a, owner[a]) {
      assert OwnedBy(page, size, at, free, a, owner[a]);
    }
    forall i: nat | i < Objects(z) ensures i in free'[d] { assert free'[d][Objects(z) - 1 - i] == i; }
    forall e, i: nat | Out(at', size', free', e, i) && e in page'
      ensures At(page'[e], size'[e], i) in owner && owner[At(page'[e], size'[e], i)] == Place(e, i, size'[e])
    {
      assert e != d && Out(at, size, free, e, i);
    }
  }

  /** Every page is still either the system's or the allocator's. */
  ghost predicate SamePages(pages: set<nat>, descPages: set<nat>, home: Words, pages': set<nat>,
      descPages': set<nat>, home': Words)
  {
    forall p :: (p in pages' || p in descPages' || p in home') <==> (p in pages || p in descPages || p in home)
  }

  lemma NewApart(page: Words, at: Words, pages: set<nat>, descPages: set<nat>, home: Words, d: nat, k: nat, p: nat)
    requires Apart(page, at, pages, descPages, home) && d !in at && p in pages
    ensures Apart(page[d := p], at[d := k], pages - {p}, descPages, home[p := d])
    ensures SamePages(pages, descPages, home, pages - {p}, descPages, home[p := d])
  {
    var home' := home[p := d];
    forall q | q in home' ensures Homed(page[d := p], at[d := k], home', q) {
      if q != p { assert Homed(page, at, home, q); }
    }
  }

  lemma ReleaseApart(page: Words, at: Words, pages: set<nat>, descPages: set<nat>, home: Words, d: nat)
    requires Apart(page, at, pages, descPages, home) && d in at && d in page
    ensures Apart(page, at - {d}, pages + {page[d]}, descPages, home - {page[d]})
    ensures SamePages(pages, descPages, home, pages + {page[d]}, descPages, home - {page[d]})
  {
    forall q | q in home && q != page[d] ensures Homed(page, at - {d}, home - {page[d]}, q)
    {
      assert Homed(page, at, home, q);
    }
  }

  /** The page goes back when its last object has: by then nobody owns an object in it. */
  lemma ReleaseKept(mem: Words, page: Words, size: Words, freeptr: Words, refcnt: Words, at: Words,
      free: map<nat, seq<nat>>, owner: map<nat, Place>, d: nat)
    requires Buckets(mem, page, size, freeptr, refcnt, at, free) && Owned(page, size, at, free, owner)
    requires d in at && refcnt[d] == 0
    ensures Buckets(mem, page, size, freeptr, refcnt, at - {d}, free) && Owned(page, size, at - {d}, free, owner)
  {
    AllBack(mem, page, size, freeptr, refcnt, at, free, owner, d);
    ReleaseOwned(page, size, at, free, owner, d);
  }

  lemma ReleaseOwned(page: Words, size: Words, at: Words, free: map<nat, seq<nat>>, owner: map<nat, Place>, d: nat)
    requires Owned(page, size, at, free, owner) && forall a | a in owner :: owner[a].d != d
    ensures Owned(page, size, at - {d}, free, owner)
  {
    forall a | a in owner ensures OwnedBy(page, size, at - {d}, free, a, owner[a]) {
      assert OwnedBy(page, size, at, free, a, owner[a]);
    }
    forall e, i: nat | Out(at - {d}, size, free, e, i) && e in page
      ensures At(page[e], size[e], i) in owner && owner[At(page[e], size[e], i)] == Place(e, i, size[e])
    {
      assert Out(at, size, free, e, i);
    }
  }
}

/** The allocator's lists of descriptors: a chain for each of the nine sizes and the unused
    ones. Lists are written with their first element last. */
module BucketLists {
  import opened Wrappers
  import opened BucketPages

  predicate Chain(next: Words, head: nat, xs: seq<nat>) {
    && head == (if xs == [] then 0 else xs[|xs| - 1])
    && Distinct(xs)
    && (forall i: nat | i < |xs| :: xs[i] != 0 && xs[i] in next)
    && (forall i: nat, j: nat | i < j < i + 2 && j < |xs| :: next[xs[j]] == xs[i])
    && (xs != [] ==> next[xs[0]] == 0)
  }

  predicate OnList(lists: seq<seq<nat>>, at: Words, d: nat) {
    d in at && at[d] < |lists| && d in lists[at[d]]
  }

  /** Chain k holds just the descriptors in use for size k. */
  ghost predicate Chains(next: Words, dir: seq<nat>, lists: seq<seq<nat>>, at: Words) {
    && |dir| == |lists| == 9
    && (forall k: nat {:trigger dir[k]} {:trigger lists[k]} | k < 9 :: Chain(next, dir[k], lists[k]))
    && (forall k: nat, i: nat {:trigger lists[k][i]} | k < 9 && i < |lists[k]| ::
          lists[k][i] in at && at[lists[k][i]] == k)
    && (forall d {:trigger OnList(lists, at, d)} | d in at :: OnList(lists, at, d))
  }

  predicate Idle(next: Words, head: nat, idle: seq<nat>, at: Words) {
    Chain(next, head, idle) && forall i: nat | i < |idle| :: idle[i] !in at
  }

  /** One of the first n descriptors of a page. */
  predicate Slot(first: nat, n: nat, d: nat) {
    n > 0 && (d == first + 16 * (n - 1) || Slot(first, n - 1, d))
  }

  predicate Held(idle: seq<nat>, at: Words, d: nat) {
    d in at || d in idle
  }

  /** The descriptors are the 256 of each descriptor page, and none is lost. */
  ghost predicate Conserved(next: Words, idle: seq<nat>, at: Words, descPages: set<nat>) {
    && (forall d {:trigger PageOf(d)} | d in next :: PageOf(d) in descPages && Slot(PageOf(d), 256, d))
    && (forall p, d {:trigger Slot(p, 256, d)} | p in descPages && Slot(p, 256, d) :: d in next)
    && (forall d {:trigger Held(idle, at, d)} | d in next :: Held(idle, at, d))
  }

  lemma ChainFrame(next: Words, next': Words, head: nat, xs: seq<nat>)
    requires Chain(next, head, xs) && forall i: nat | i < |xs| :: xs[i] in next' && next'[xs[i]] == next[xs[i]]
    ensures Chain(next', head, xs)
  {
  }

  lemma ChainPush(next: Words, head: nat, xs: seq<nat>, d: nat, xs': seq<nat>)
    requires Chain(next, head, xs) && d in next && d != 0 && d !in xs && next[d] == head && IsPush(xs', xs, d)
    ensures Chain(next, d, xs')
  {
  }

  lemma ChainPop(next: Words, head: nat, xs: seq<nat>, xs': seq<nat>)
    requires Chain(next, head, xs) && head != 0 && IsPush(xs, xs', head)
    ensures Chain(next, next[head], xs')
  {
  }

  predicate IsWithout(ys: seq<nat>, xs: seq<nat>, j: nat) {
    && j < |xs| && |ys| == |xs| - 1
    && (forall i: nat | i < j :: ys[i] == xs[i])
    && (forall i: nat | j <= i < |ys| :: ys[i] == xs[i + 1])
  }

  /** One store takes node j out: into the node before it, or into the head. */
  lemma ChainRemove(next: Words, next': Words, head: nat, head': nat, xs: seq<nat>, j: nat, ys: seq<nat>)
    requires Chain(next, head, xs) && IsWithout(ys, xs, j)
    requires if j + 1 == |xs| then next' == next && head' == next[xs[j]]
             else head' == head && next' == next[xs[j + 1] := next[xs[j]]]
    ensures Chain(next', head', ys)
  {
    forall i: nat | i < |ys| ensures ys[i] != 0 && ys[i] in next && ys[i] != xs[j] {
      assert ys[i] == if i < j then xs[i] else xs[i + 1];
    }
    forall i: nat, l: nat | i < l < |ys| ensures ys[i] != ys[l] {
      assert ys[i] == xs[if i < j then i else i + 1] && ys[l] == xs[if l < j then l else l + 1];
    }
    if j > 0 { assert next[xs[j]] == xs[j - 1]; }
    forall i: nat, l: nat | i < l < i + 2 && l < |ys| ensures next'[ys[l]] == ys[i] {
      var i', l' := if i < j then i else i + 1, if l < j then l else l + 1;
      assert ys[i] == xs[i'] && ys[l] == xs[l'];
      if l != j { assert next[xs[l']] == xs[i']; }
    }
  }

  lemma ChainsPush(next: Words, dir: seq<nat>, lists: seq<seq<nat>>, at: Words, k: nat, d: nat, xs: seq<nat>)
    requires Chains(next, dir, lists, at) && k < 9 && d in next && d != 0 && d !in at && IsPush(xs, lists[k], d)
    ensures Chains(next[d := dir[k]], dir[k := d], lists[k := xs], at[d := k])
  {
    var next', lists', at' := next[d := dir[k]], lists[k := xs], at[d := k];
    forall m: nat | m < 9 ensures Chain(next', dir[k := d][m], lists'[m]) {
      assert forall i: nat | i < |lists[m]| :: lists[m][i] in at && lists[m][i] != d;
      ChainFrame(next, next', dir[m], lists[m]);
      if m == k { ChainPush(next', dir[k], lists[k], d, xs); }
    }
    forall m: nat, i: nat | m < 9 && i < |lists'[m]| ensures lists'[m][i] in at' && at'[lists'[m][i]] == m {
      if m != k || i < |lists[k]| { assert lists'[m][i] == lists[m][i] && lists[m][i] in at; }
    }
    PushMembers(xs, lists[k], d);
    forall e | e in at' ensures OnList(lists', at', e) {
      if e != d { assert OnList(lists, at, e); }
    }
  }

  lemma ChainsRemove(next: Words, next': Words, dir: seq<nat>, head: nat, lists: seq<seq<nat>>, at: Words, k: nat,
      j: nat, xs: seq<nat>)
    requires Chains(next, dir, lists, at) && k < 9 && IsWithout(xs, lists[k], j)
    requires if j + 1 == |lists[k]| then next' == next && head == next[lists[k][j]]
             else head == dir[k] && next' == next[lists[k][j + 1] := next[lists[k][j]]]
    ensures Chains(next', dir[k := head], lists[k := xs], at - {lists[k][j]})
  {
    var d, lists', at' := lists[k][j], lists[k := xs], at - {lists[k][j]};
    forall m: nat | m < 9 ensures Chain(next', dir[k := head][m], lists'[m]) {
      if m == k {
        ChainRemove(next, next', dir[k], head, lists[k], j, xs);
      } else {
        ChainElsewhere(next, dir, lists, at, k, m);
        ChainFrame(next, next', dir[m], lists[m]);
      }
    }
    WithoutMembers(xs, lists[k], j);
    forall m: nat, i: nat | m < 9 && i < |lists'[m]| ensures lists'[m][i] in at' && at'[lists'[m][i]] == m {
      if m == k { InChain(next, dir, lists, at, k, xs[i]); } else { assert at[lists[m][i]] == m && at[d] == k; }
    }
    forall e | e in at' ensures OnList(lists', at', e) { assert OnList(lists, at, e); }
  }

  lemma InChain(next: Words, dir: seq<nat>, lists: seq<seq<nat>>, at: Words, k: nat, d: nat)
    requires Chains(next, dir, lists, at) && k < 9 && d in lists[k]
    ensures d in at && at[d] == k
  {
    var i: nat :| i < |lists[k]| && lists[k][i] == d;
  }

  lemma ChainElsewhere(next: Words, dir: seq<nat>, lists: seq<seq<nat>>, at: Words, k: nat, m: nat)
    requires Chains(next, dir, lists, at) && k < 9 && m < 9 && m != k
    ensures forall i: nat, j: nat | i < |lists[m]| && j < |lists[k]| :: lists[m][i] != lists[k][j]
  {
    forall i: nat, j: nat | i < |lists[m]| && j < |lists[k]| ensures lists[m][i] != lists[k][j] {
      assert at[lists[m][i]] == m && at[lists[k][j]] == k;
    }
  }

  lemma WithoutMembers(ys: seq<nat>, xs: seq<nat>, j: nat)
    requires IsWithout(ys, xs, j) && Distinct(xs)
    ensures forall x :: x in ys <==> x in xs && x != xs[j]
  {
    forall x | x in ys ensures x in xs && x != xs[j] {
      var i: nat :| i < |ys| && ys[i] == x;
      assert x == xs[if i < j then i else i + 1];
    }
    forall x | x in xs && x != xs[j] ensures x in ys {
      var i: nat :| i < |xs| && xs[i] == x;
      assert x == ys[if i < j then i else i - 1];
    }
  }

  lemma ChainsFrame(next: Words, next': Words, dir: seq<nat>, lists: seq<seq<nat>>, at: Words)
    requires Chains(next, dir, lists, at) && forall d | d in at && d in next :: d in next' && next'[d] == next[d]
    ensures Chains(next', dir, lists, at)
  {
    forall k: nat | k < 9 ensures Chain(next', dir[k], lists[k]) {
      assert forall i: nat | i < |lists[k]| :: lists[k][i] in at;
      ChainFrame(next, next', dir[k], lists[k]);
    }
  }

  /** A descriptor leaves the idle list for a chain. */
  lemma IdlePop(next: Words, head: nat, idle: seq<nat>, at: Words, idle': seq<nat>, k: nat, v: nat)
    requires Idle(next, head, idle, at) && IsPush(idle, idle', head) && head != 0
    ensures Idle(next[head := v], next[head], idle', at[head := k])
  {
    ChainPop(next, head, idle, idle');
    ChainFrame(next, next[head := v], next[head], idle');
  }

  lemma IdlePush(next: Words, head: nat, idle: seq<nat>, at: Words, d: nat, idle': seq<nat>)
    requires Idle(next, head, idle, at) && d in at && d in next && d != 0 && IsPush(idle', idle, d)
    ensures Idle(next[d := head], d, idle', at - {d})
  {
    ChainFrame(next, next[d := head], head, idle);
    ChainPush(next[d := head], head, idle, d, idle');
  }

  /** The loop of init_bucket_desc after n turns. */
  ghost predicate PartCut(next: Words, next': Words, first: nat, n: nat) {
    && n <= 256
    && (forall d | d in next :: d in next' && next'[d] == next[d])
    && (forall d | d in next' :: d in next || (Slot(first, n, d) && next'[d] == d + 16))
    && (forall d {:trigger Slot(first, n, d)} | Slot(first, n, d) :: d in next')
  }

  ghost predicate Vacant(next: Words, first: nat) {
    Page(first) && forall d {:trigger PageOf(d)} | d in next :: PageOf(d) != first
  }

  lemma {:induction false} SlotRange(first: nat, n: nat, d: nat)
    requires Slot(first, n, d)
    ensures first <= d < first + 16 * n
  {
    if d != first + 16 * (n - 1) { SlotRange(first, n - 1, d); }
  }

  lemma SlotPage(first: nat, n: nat, d: nat)
    requires Page(first) && n <= 256 && Slot(first, n, d)
    ensures PageOf(d) == first
  {
    SlotRange(first, n, d);
  }

  lemma {:induction false} SlotAt(first: nat, n: nat, t: nat)
    requires t < n
    ensures Slot(first, n, first + 16 * t)
  {
    if t + 1 < n { SlotAt(first, n - 1, t); }
  }

  lemma SlotNew(next: Words, next': Words, first: nat, n: nat)
    requires Vacant(next, first) && PartCut(next, next', first, n) && n < 256
    ensures first + 16 * n !in next' && first + 16 * n !in next
  {
    var d := first + 16 * n;
    SlotAt(first, n + 1, n);
    SlotPage(first, n + 1, d);
    if Slot(first, n, d) { SlotRange(first, n, d); }
  }

  lemma CutStep(next: Words, next': Words, first: nat, n: nat, d: nat)
    requires Vacant(next, first) && PartCut(next, next', first, n) && n < 256 && d == first + 16 * n
    ensures PartCut(next, next'[d := d + 16], first, n + 1)
  {
    SlotNew(next, next', first, n);
    forall e {:trigger Slot(first, n + 1, e)} | Slot(first, n + 1, e) ensures e in next'[d := d + 16] { assert e == d ||
        Slot(first, n, e); }
  }

  /** init_bucket_desc puts the new descriptors before the idle ones. */
  predicate IsCut(ys: seq<nat>, idle: seq<nat>, first: nat) {
    && |ys| == |idle| + 256
    && (forall i: nat | i < |idle| :: ys[i] == idle[i])
    && (forall i: nat | |idle| <= i < |ys| :: ys[i] == first + 16 * (|ys| - 1 - i))
  }

  lemma CutAt(next: Words, next': Words, first: nat, n: nat)
    requires Vacant(next, first) && PartCut(next, next', first, 255) && n < 256
    ensures var d := first + 16 * n; PageOf(d) == first && (n < 255 ==> d in next' && next'[d] == d + 16)
  {
    var d := first + 16 * n;
    SlotAt(first, 256, n);
    SlotPage(first, 256, d);
    if n < 255 { SlotAt(first, 255, n); }
  }

  lemma CutEntry(next: Words, next': Words, head: nat, idle: seq<nat>, first: nat, ys: seq<nat>, i: nat)
    requires Vacant(next, first) && PartCut(next, next', first, 255) && IsCut(ys, idle, first) && |idle| <= i < |ys|
    ensures var last := first + 16 * 255;
            var next1 := next'[last := head];
            ys[i] in next1 && PageOf(ys[i]) == first && (ys[i] != last ==> next1[ys[i]] == ys[i] + 16)
  {
    var n := |ys| - 1 - i;
    assert ys[i] == first + 16 * n;
    CutAt(next, next', first, n);
  }

  lemma CutIdle(next: Words, next': Words, head: nat, idle: seq<nat>, at: Words, first: nat, ys: seq<nat>)
    requires Idle(next, head, idle, at) && Vacant(next, first) && PartCut(next, next', first, 255)
    requires IsCut(ys, idle, first)
    requires forall d | d in at :: PageOf(d) != first
    ensures var last := first + 16 * 255;
            Idle(next'[last := head], first, ys, at)
  {
    var last := first + 16 * 255;
    var next1 := next'[last := head];
    SlotNew(next, next', first, 255);
    forall i: nat | |idle| <= i < |ys| ensures ys[i] in next1 && PageOf(ys[i]) == first && (ys[i] != last ==>
        next1[ys[i]] == ys[i] + 16) {
      CutEntry(next, next', head, idle, first, ys, i);
    }
    forall i: nat, j: nat | i < j < |ys| ensures ys[i] != ys[j] {
      if i < |idle| <= j { assert idle[i] in next && ys[i] == idle[i]; }
    }
    forall i: nat, j: nat | i < j < i + 2 && j < |ys| ensures next1[ys[j]] == ys[i] {
      if j < |idle| { assert ys[j] == idle[j] && next[idle[j]] == idle[i]; }
    }
  }

  lemma {:induction false} SlotIndex(first: nat, n: nat, d: nat) returns (t: nat)
    requires Slot(first, n, d)
    ensures t < n && d == first + 16 * t
  {
    if d == first + 16 * (n - 1) { t := n - 1; } else { t := SlotIndex(first, n - 1, d); }
  }

  lemma CutConserved(next: Words, next': Words, idle: seq<nat>, at: Words, descPages: set<nat>, first: nat,
      head: nat, ys: seq<nat>)
    requires Conserved(next, idle, at, descPages) && Vacant(next, first) && PartCut(next, next', first, 255)
    requires IsCut(ys, idle, first)
    ensures Conserved(next'[first + 16 * 255 := head], ys, at, descPages + {first})
  {
    var last := first + 16 * 255;
    var next1 := next'[last := head];
    forall d | d in next1 ensures PageOf(d) in descPages + {first} && Slot(PageOf(d), 256, d) && Held(ys, at, d) {
      if d in next {
        assert Held(idle, at, d) && PageOf(d) in descPages;
        if d in idle { IdleStays(idle, ys, first, d); }
      } else {
        assert Slot(first, 256, d);
        SlotPage(first, 256, d);
        var t := SlotIndex(first, 256, d);
        assert ys[|ys| - 1 - t] == d;
      }
    }
    forall p, d {:trigger Slot(p, 256, d)} | p in descPages + {first} && Slot(p, 256, d) ensures d in next1 {
      if p in descPages { assert d in next; } else { assert d == last || Slot(first, 255, d); }
    }
  }

  lemma IdleStays(idle: seq<nat>, ys: seq<nat>, first: nat, d: nat)
    requires IsCut(ys, idle, first) && d in idle
    ensures d in ys
  {
    var i: nat :| i < |idle| && idle[i] == d;
    assert ys[i] == d;
  }

  /** Descriptors that change lists stay accounted for. */
  lemma PopConserved(next: Words, idle: seq<nat>, at: Words, descPages: set<nat>, d: nat, idle': seq<nat>, k: nat,
      v: nat)
    requires Conserved(next, idle, at, descPages) && IsPush(idle, idle', d) && d in next
    ensures Conserved(next[d := v], idle', at[d := k], descPages)
  {
    PushMembers(idle, idle', d);
    forall e | e in next ensures Held(idle', at[d := k], e) { assert Held(idle, at, e); }
  }

  lemma PushConserved(next: Words, next': Words, idle: seq<nat>, at: Words, descPages: set<nat>, d: nat,
      idle': seq<nat>)
    requires Conserved(next, idle, at, descPages) && IsPush(idle', idle, d) && next'.Keys == next.Keys
    ensures Conserved(next', idle', at - {d}, descPages)
  {
    PushMembers(idle', idle, d);
    assert forall e :: e in next' <==> e in next'.Keys;
    forall e | e in next' ensures Held(idle', at - {d}, e) { assert e in next && Held(idle, at, e); }
  }
}
