/** malloc and free_s. */
module BucketAllocator {
  import opened Wrappers
  import opened BucketPages
  import opened BucketLists

  /** bucket_dir[].size: the nine sizes, from 16 to 4096. */
  function Size(k: nat): (size: nat)
    requires k < 9
    ensures 16 <= size <= 4096
  {
    if k == 0 then 16 else if k == 1 then 32 else if k == 2 then 64 else if k == 3 then 128 else if k == 4 then 256
    else if k == 5 then 512 else if k == 6 then 1024 else if k == 7 then 2048 else 4096
  }

  /** bucket_size is the size of the chain that the descriptor is on. */
  predicate SizedAt(size: Words, at: Words, d: nat) {
    d in at && at[d] < 9 && d in size && size[d] == Size(at[d])
  }

  ghost predicate Sized(size: Words, at: Words) {
    forall d {:trigger SizedAt(size, at, d)} | d in at :: SizedAt(size, at, d)
  }

  /** A bucket of the k-th size has a free object. */
  predicate HasRoom(at: Words, freeptr: Words, k: nat) {
    exists d | d in at :: at[d] == k && d in freeptr && freeptr[d] != 0
  }

  /** What a new bucket takes: its page, and one for descriptors if there is none left. */
  function PagesFor(freeDesc: nat): nat {
    if freeDesc == 0 then 2 else 1
  }

  /** Of `had` pages `left` are left, and whether that was enough. */
  predicate Spent(room: bool, freeDesc: nat, had: nat, left: nat, ok: bool) {
    if room then ok && left == had
    else (ok <==> had >= PagesFor(freeDesc)) && (ok ==> left + PagesFor(freeDesc) == had)
  }

  class Allocator {
    var next: Words      // the descriptors' fields
    var page: Words
    var freeptr: Words
    var size: Words      // bucket_size
    var refcnt: Words
    var dir: seq<nat>            // bucket_dir[].chain
    var freeDesc: nat            // free_bucket_desc
    var mem: Words       // the words of all pages
    var pages: set<nat>          // what get_free_page can give
    ghost var lists: seq<seq<nat>>
    ghost var idle: seq<nat>
    ghost var at: Words
    ghost var free: map<nat, seq<nat>>
    ghost var owner: map<nat, Place>
    ghost var descPages: set<nat>
    ghost var home: Words

    /** The lists of descriptors are as they should be. */
    ghost predicate Linked()
      reads this
    {
      Chains(next, dir, lists, at) && Idle(next, freeDesc, idle, at) && Conserved(next, idle, at, descPages)
    }

    /** And so are the pages and objects. */
    ghost predicate Stocked()
      reads this
    {
      StockedIn(at)
    }

    ghost predicate StockedIn(at: Words)
      reads this
    {
      && Buckets(mem, page, size, freeptr, refcnt, at, free)
      && Apart(page, at, pages, descPages, home)
      && Owned(page, size, at, free, owner)
      && Sized(size, at)
    }

    /** Between calls no bucket is wholly free. */
    ghost predicate Valid()
      reads this
    {
      Linked() && Stocked() && forall d | d in at :: refcnt[d] > 0
    }

    constructor (pages: set<nat>)
      requires forall p | p in pages :: Page(p)
      ensures Valid() && owner == map[]
      ensures this.pages == pages && home == map[] && descPages == {}
    {
      next, page, freeptr, size, refcnt, mem, this.pages := map[], map[], map[], map[], map[], map[], pages;
      dir, freeDesc := [0, 0, 0, 0, 0, 0, 0, 0, 0], 0;
      lists, idle, at, free, owner, descPages, home :=
        [[], [], [], [], [], [], [], [], []], [], map[], map[], map[], {}, map[];
    }

    /** A user stores a word in one of its objects. */
    method StoreWord(obj: nat, a: nat, v: nat)
      requires Stocked() && obj in owner && obj <= a && a + 4 <= obj + owner[obj].size
      modifies `mem
      ensures Stocked() && mem == old(mem)[a := v]
    {
      StoreBuckets(mem, page, size, freeptr, refcnt, at, free, owner, pages, descPages, home, obj, a, v);
      mem := mem[a := v];
    }

    /** get_free_page, or 0. */
    method GetFreePage() returns (p: nat)
      requires 0 !in pages
      modifies `pages
      ensures p == 0 ==> pages == {} && old(pages) == {}
      ensures p != 0 ==> p in old(pages) && pages == old(pages) - {p} && |pages| == |old(pages)| - 1
    {
      if pages == {} { return 0; }
      p :| p in pages;
      pages := pages - {p};
    }

    /** The loop of init_bucket_desc. */
    method LinkDescs(first: nat) returns (bdesc: nat)
      requires Vacant(next, first)
      modifies `next
      ensures PartCut(old(next), next, first, 255) && bdesc == first + 16 * 255
    {
      bdesc := first;
      var i := 256;
      ghost var n := 0;
      while i > 1
        invariant 1 <= i <= 256 && n == 256 - i && bdesc == first + 16 * n
        invariant PartCut(old(next), next, first, n)
      {
        CutStep(old(next), next, first, n, bdesc);
        next := next[bdesc := bdesc + 16];
        bdesc := bdesc + 16;
        i := i - 1;
        n := n + 1;
      }
    }

    /** Descriptors of a new page go first on the idle list. */
    method CutPage(first: nat)
      requires Linked() && Vacant(next, first) && first !in descPages && forall d | d in at :: PageOf(d) != first
      modifies `next, `freeDesc, `idle, `descPages
      ensures Linked() && freeDesc == first && descPages == old(descPages) + {first}
    {
      var bdesc := LinkDescs(first);
      ghost var ys := CutList(idle, first);
      CutKept(old(next), next, dir, freeDesc, lists, idle, at, descPages, first, ys);
      next := next[bdesc := freeDesc];
      freeDesc := first;
      idle, descPages := ys, descPages + {first};
    }

    /** init_bucket_desc: cut a page into descriptors. False when out of memory. */
    method InitBucketDesc() returns (ok: bool)
      requires Linked() && Apart(page, at, pages, descPages, home)
      modifies `next, `freeDesc, `pages, `idle, `descPages
      ensures Linked() && Apart(page, at, pages, descPages, home)
      ensures SamePages(old(pages), old(descPages), home, pages, descPages, home)
      ensures if ok then freeDesc != 0 && |pages| == |old(pages)| - 1 else pages == old(pages) == {}
      ensures !ok ==> freeDesc == old(freeDesc)
    {
      var first := GetFreePage();
      if first == 0 { return false; }
      FreshVacant(next, dir, lists, idle, at, page, old(pages), descPages, home, first);
      CutApart(page, at, old(pages), descPages, home, first);
      CutPage(first);
      ok := true;
    }

    /** The loop of malloc that writes the chain of free objects into a new page. */
    method Carve(p: nat, z: nat)
      requires 16 <= z <= 4096
      modifies `mem
      ensures Carved(mem, p, z, Objects(z)) && SameOutside(old(mem), mem, p)
    {
      var cp, i := p, Objects(z);
      ghost var n, j := i, 0;
      while i > 1
        invariant i + j == n && (n > 0 ==> i > 0) && cp == At(p, z, j)
        invariant Linking(mem, p, z, j) && SameOutside(old(mem), mem, p)
      {
        LinkNext(old(mem), mem, p, z, j);
        mem := mem[cp := cp + z];
        cp := cp + z;
        i, j := i - 1, j + 1;
      }
      LinkEnd(old(mem), mem, p, z, j);
      mem := mem[cp := 0];
    }

    /** malloc's new bucket: a descriptor, a page, and its objects. 0 when out of memory. */
    method NewBucket(k: nat) returns (d: nat)
      requires Linked() && Stocked() && k < 9
      modifies this
      ensures Stocked() && owner == old(owner)
      ensures SamePages(old(pages), old(descPages), old(home), pages, descPages, home)
      ensures Linked()
      ensures if d == 0 then pages == {} && at == old(at) && refcnt == old(refcnt)
              else Opened(d, k, old(at), old(refcnt), at, refcnt, free)
      ensures var needed := PagesFor(old(freeDesc));
        if d == 0 then |old(pages)| < needed else |pages| + needed == |old(pages)|
    {
      if freeDesc == 0 {
        var ok := InitBucketDesc();
        if !ok { return 0; }
      }
      d := OpenBucket(k);
    }

    method OpenBucket(k: nat) returns (d: nat)
      requires Linked() && Stocked() && k < 9 && freeDesc != 0
      modifies this
      ensures Stocked() && owner == old(owner) && descPages == old(descPages)
      ensures SamePages(old(pages), old(descPages), old(home), pages, descPages, home)
      ensures Linked()
      ensures if d == 0 then pages == {} && at == old(at) && refcnt == old(refcnt)
              else Opened(d, k, old(at), old(refcnt), at, refcnt, free)
      ensures if d == 0 then old(pages) == {} else |pages| + 1 == |old(pages)|
    {
      d := freeDesc;
      var ok := StockBucket(d, k);
      if !ok { return 0; }
      LinkBucket(d, k);
    }

    /** The page p becomes bucket d, full of free objects of the k-th size. */
    method CarveBucket(d: nat, k: nat, p: nat, ghost had: set<nat>)
      requires Buckets(mem, page, size, freeptr, refcnt, at, free) && Apart(page, at, had, descPages, home)
      requires p in had && d !in at && k < 9
      modifies `mem, `page, `size, `freeptr, `refcnt, `free
      ensures Buckets(mem, page, size, freeptr, refcnt, at[d := k], free)
      ensures page == old(page)[d := p] && size == old(size)[d := Size(k)] && refcnt == old(refcnt)[d := 0]
      ensures free == old(free)[d := Downward(Objects(Size(k)))]
    {
      Carve(p, Size(k));
      NewBuckets(old(mem), mem, page, size, freeptr, refcnt, at, free, had, descPages, home, d, k, Size(k), p);
      page, size, freeptr, refcnt := page[d := p], size[d := Size(k)], freeptr[d := p], refcnt[d := 0];
      free := free[d := Downward(Objects(Size(k)))];
    }

    method StockBucket(d: nat, k: nat) returns (ok: bool)
      requires Stocked() && k < 9 && d !in at
      modifies `page, `size, `freeptr, `refcnt, `mem, `pages, `free, `home
      ensures !ok ==> pages == {} && Stocked() && refcnt == old(refcnt)
      ensures if ok then |pages| + 1 == |old(pages)| else old(pages) == {}
      ensures ok ==> StockedIn(at[d := k]) && refcnt == old(refcnt)[d := 0] && d in free && free[d] != []
      ensures SamePages(old(pages), descPages, old(home), pages, descPages, home)
    {
      var p := GetFreePage();
      if p == 0 { return false; }
      StockedNew(page, size, at, free, owner, old(pages), descPages, home, d, k, p);
      CarveBucket(d, k, p, old(pages));
      home := home[p := d];
      ObjectsFit(Size(k));
      return true;
    }

    /** Descriptor d goes from the idle list to chain k. */
    method LinkBucket(d: nat, k: nat)
      requires Linked() && freeDesc == d != 0 && k < 9
      modifies `next, `freeDesc, `dir, `idle, `lists, `at
      ensures Linked() && d !in old(at) && at == old(at)[d := k]
    {
      IdleHead(next, freeDesc, idle, at);
      ghost var idle' := idle[..|idle| - 1];
      ghost var xs := lists[k] + [d];
      IdlePop(next, d, idle, at, idle', k, dir[k]);
      ChainsPush(next, dir, lists, at, k, d, xs);
      PopConserved(next, idle, at, descPages, d, idle', k, dir[k]);
      freeDesc := next[d];
      next := next[d := dir[k]];
      dir := dir[k := d];
      idle, lists, at := idle', lists[k := xs], at[d := k];
    }

    /** bucket_dir's first size that is large enough; 9 if none is. */
    method FindSize(len: nat) returns (k: nat)
      ensures k <= 9 && (forall j: nat | j < k :: Size(j) < len) && (k < 9 ==> len <= Size(k))
    {
      k := 0;
      while k < 9 && Size(k) < len
        invariant k <= 9 && forall j: nat | j < k :: Size(j) < len
      {
        k := k + 1;
      }
    }

    /** The first bucket of a chain that has a free object, or 0. */
    method FindRoom(k: nat) returns (d: nat)
      requires k < 9 && Chains(next, dir, lists, at) && Buckets(mem, page, size, freeptr, refcnt, at, free)
      ensures if d != 0 then d in at && at[d] == k && freeptr[d] != 0 else forall e | e in lists[k] ::
        e in at && freeptr[e] == 0
      ensures d != 0 <==> HasRoom(at, freeptr, k)
    {
      d := dir[k];
      ghost var xs, i := lists[k], |lists[k]|;
      while d != 0 && freeptr[d] == 0
        invariant 0 <= i <= |xs| && d == (if i == 0 then 0 else xs[i - 1]) && (d != 0 ==> d in at && at[d] == k)
        invariant forall j: nat | i <= j < |xs| :: xs[j] in at && freeptr[xs[j]] == 0
        decreases i
      {
        ChainNext(next, dir, lists, at, k, i - 1);
        d, i := next[d], i - 1;
      }
      if d == 0 {
        forall e | e in at && at[e] == k ensures e in xs { assert OnList(lists, at, e); }
      }
    }

    /** The end of malloc: the first free object of bucket d is handed out. */
    method TakeObject(d: nat) returns (r: nat)
      requires Stocked() && d in at && free[d] != []
      modifies `freeptr, `refcnt, `free, `owner
      ensures Stocked() && refcnt == old(refcnt)[d := old(refcnt)[d] + 1]
      ensures r != 0 && r !in old(owner) && r in owner && owner == old(owner)[r := owner[r]] && owner[r].size == size[d]
    {
      ghost var i, rest := TakeStocked(mem, page, size, freeptr, refcnt, at, free, owner, pages, descPages, home, d);
      r := freeptr[d];
      freeptr := freeptr[d := Word(mem, r)];
      refcnt := refcnt[d := refcnt[d] + 1];
      free, owner := free[d := rest], owner[r := Place(d, i, size[d])];
    }

    /** A bucket for size k with something free, if necessary a new one; 0 when out of memory. */
    method GetRoom(k: nat) returns (d: nat)
      requires Valid() && k < 9
      modifies this
      ensures Linked() && Stocked() && owner == old(owner)
      ensures SamePages(old(pages), old(descPages), old(home), pages, descPages, home)
      ensures forall e | e in at && (d == 0 || e != d) :: refcnt[e] > 0
      ensures if d == 0 then pages == {} else d in at && at[d] == k && free[d] != []
      ensures Spent(HasRoom(old(at), old(freeptr), k), old(freeDesc), |old(pages)|, |pages|, d != 0)
    {
      d := FindRoom(k);
      if d != 0 {
        assert Bucket(mem, page[d], freeptr[d], refcnt[d], size[d], free[d]);
        return;
      }
      d := NewBucket(k);
    }

    /** An object of the k-th size, or 0. */
    method TakeSized(k: nat) returns (r: nat)
      requires Valid() && k < 9
      modifies this
      ensures Valid() && SamePages(old(pages), old(descPages), old(home), pages, descPages, home)
      ensures if r != 0 then Added(old(owner), owner, r, Size(k)) else owner == old(owner) && pages == {}
      ensures Spent(HasRoom(old(at), old(freeptr), k), old(freeDesc), |old(pages)|, |pages|, r != 0)
    {
      var d := GetRoom(k);
      if d == 0 { return 0; }
      assert SizedAt(size, at, d);
      r := TakeObject(d);
    }

    /** malloc. The object is new to everybody, at least len bytes long and of the smallest size
        that is. A page is taken only if no bucket of that size has room, and a second only if there
        is no descriptor for it. 0 stands for the panics: too long, or not that many pages. */
    method Malloc(len: nat) returns (r: nat)
      requires Valid()
      modifies this
      ensures Valid() && SamePages(old(pages), old(descPages), old(home), pages, descPages, home)
      ensures r != 0 ==> exists k: nat | k < 9 && Added(old(owner), owner, r, Size(k)) ::
            len <= Size(k) && forall j: nat | j < k :: Size(j) < len
      ensures r == 0 ==> owner == old(owner) && (len > 4096 || pages == {})
      ensures r != 0 ==> var z := owner[r].size; len <= z && (z == 16 || z < 2 * len)
      ensures len > 4096 ==> r == 0
      ensures forall k: nat | k < 9 && len <= Size(k) && (forall j: nat | j < k :: Size(j) < len) ::
        Spent(HasRoom(old(at), old(freeptr), k), old(freeDesc), |old(pages)|, |pages|, r != 0)
    {
      var k := FindSize(len);
      if k == 9 {
        assert Size(8) < len;
        return 0;
      }
      r := TakeSized(k);
      assert k > 0 ==> Size(k) == 2 * Size(k - 1);
    }

    /** free_s's search: the descriptor of the page, its chain, and the one before it there (0
        at the head). Chains of objects smaller than `least` are passed over. */
    method FindPage(p: nat, least: nat) returns (k: nat, prev: nat, d: nat, ghost j: nat)
      requires Chains(next, dir, lists, at) && Buckets(mem, page, size, freeptr, refcnt, at, free)
      ensures d != 0 ==> k < 9 && least <= Size(k) && IsAt(lists, at, k, j, d, prev) && d in page && page[d] == p
      ensures d == 0 ==> forall e | e in at && at[e] < 9 && least <= Size(at[e]) :: e in page && page[e] != p
    {
      k, prev, d, j := 0, 0, 0, 0;
      while k < 9
        invariant k <= 9 && forall e | e in at && at[e] < k && least <= Size(at[e]) :: e in page && page[e] != p
      {
        if least <= Size(k) {
          prev, d, j := FindInChain(p, k);
          if d != 0 { return; }
        }
        k := k + 1;
      }
      d := 0;
    }

    method FindInChain(p: nat, k: nat) returns (prev: nat, d: nat, ghost j: nat)
      requires k < 9 && Chains(next, dir, lists, at) && Buckets(mem, page, size, freeptr, refcnt, at, free)
      ensures d != 0 ==> IsAt(lists, at, k, j, d, prev) && d in page && page[d] == p
      ensures d == 0 ==> forall e | e in at && at[e] == k :: e in page && page[e] != p
    {
      prev, d, j := 0, dir[k], 0;
      ghost var xs, i := lists[k], |lists[k]|;
      while d != 0 && page[d] != p
        invariant 0 <= i <= |xs| && d == (if i == 0 then 0 else xs[i - 1]) && prev == (if i == |xs| then 0 else xs[i])
        invariant d != 0 ==> d in at && at[d] == k
        invariant forall l: nat | i <= l < |xs| :: xs[l] in at && page[xs[l]] != p
        decreases i
      {
        ChainNext(next, dir, lists, at, k, i - 1);
        prev, d, i := d, next[d], i - 1;
      }
      if d != 0 {
        j := i - 1;
      } else {
        forall e | e in at && at[e] == k ensures e in xs { assert OnList(lists, at, e); }
      }
    }

    /** free_s puts the object first on the free list of its bucket. */
    method PutObject(d: nat, obj: nat)
      requires Stocked() && obj in owner && owner[obj].d == d
      modifies `mem, `freeptr, `refcnt, `free, `owner
      ensures Stocked() && owner == old(owner) - {obj}
      ensures old(refcnt)[d] > 0 && refcnt == old(refcnt)[d := old(refcnt)[d] - 1]
    {
      ghost var fl := free[d] + [owner[obj].i];
      PutOwned(page, size, at, free, owner, pages, descPages, home, obj, fl);
      PushFree(d, obj, fl);
      owner := owner - {obj};
    }

    method PushFree(d: nat, obj: nat, ghost fl: seq<nat>)
      requires Buckets(mem, page, size, freeptr, refcnt, at, free) && Apart(page, at, pages, descPages, home)
      requires Owned(page, size, at, free, owner) && obj in owner && owner[obj].d == d
      requires IsPush(fl, free[d], owner[obj].i)
      modifies `mem, `freeptr, `refcnt, `free
      ensures Buckets(mem, page, size, freeptr, refcnt, at, free) && free == old(free)[d := fl]
      ensures old(refcnt)[d] > 0 && refcnt == old(refcnt)[d := old(refcnt)[d] - 1]
    {
      PutBuckets(mem, page, size, freeptr, refcnt, at, free, owner, pages, descPages, home, obj, fl);
      mem := mem[obj := freeptr[d]];
      freeptr := freeptr[d := obj];
      refcnt := refcnt[d := refcnt[d] - 1];
      free := free[d := fl];
    }

    /** A descriptor goes from its chain to the idle list. */
    method Unlink(k: nat, prev: nat, d: nat, ghost j: nat)
      requires Linked() && k < 9 && IsAt(lists, at, k, j, d, prev)
      modifies `next, `dir, `freeDesc, `lists, `idle, `at
      ensures Linked() && at == old(at) - {d}
    {
      ghost var ys := idle + [d];
      ghost var xs := Without(lists[k], j);
      UsedDescs(next, dir, lists, at);
      ChainNext(next, dir, lists, at, k, j);
      HeadNode(next, dir, lists, at, k, j);
      if prev != 0 {
        ChainNext(next, dir, lists, at, k, j + 1);
        next := next[prev := next[d]];
      } else {
        dir := dir[k := next[d]];
      }
      UnlinkKept(old(next), next, old(dir), dir, freeDesc, lists, idle, at, descPages, k, j, prev, d, xs, ys);
      next := next[d := freeDesc];
      freeDesc := d;
      lists, idle, at := lists[k := xs], ys, at - {d};
    }

    /** The page of an empty bucket goes back to the system. */
    method Release(k: nat, prev: nat, d: nat, ghost j: nat)
      requires Linked() && Stocked() && k < 9 && IsAt(lists, at, k, j, d, prev) && refcnt[d] == 0
      modifies `next, `dir, `freeDesc, `pages, `lists, `idle, `at, `home
      ensures Linked() && Stocked() && at == old(at) - {d} && page[d] in pages
      ensures SamePages(old(pages), descPages, old(home), pages, descPages, home)
    {
      GiveBack(d);
      Unlink(k, prev, d, j);
    }

    method GiveBack(d: nat)
      requires Stocked() && d in at && refcnt[d] == 0
      modifies `pages, `home
      ensures StockedIn(at - {d}) && page[d] in pages
      ensures SamePages(old(pages), descPages, old(home), pages, descPages, home)
    {
      ReleaseKept(mem, page, size, freeptr, refcnt, at, free, owner, d);
      ReleaseApart(page, at, pages, descPages, home, d);
      SizedLess(size, at, d);
      pages := pages + {page[d]};
      home := home - {page[d]};
    }

    /** The end of free_s: a bucket that is all free is given up. */
    method Settle(k: nat, prev: nat, d: nat, ghost j: nat)
      requires Linked() && Stocked() && k < 9 && IsAt(lists, at, k, j, d, prev) && forall e | e in at && e != d ::
        refcnt[e] > 0
      modifies `next, `dir, `freeDesc, `pages, `lists, `idle, `at, `home
      ensures Valid() && SamePages(old(pages), descPages, old(home), pages, descPages, home)
      ensures page[d] in pages <==> forall a | a in owner :: PageOf(a) != page[d]
    {
      if refcnt[d] == 0 {
        PageGone(mem, page, size, freeptr, refcnt, at, free, owner, pages, descPages, home, d);
        Release(k, prev, d, j);
      } else {
        PageKept(mem, page, size, freeptr, refcnt, at, free, owner, pages, descPages, home, d);
      }
    }

    /** free_s, once the object's bucket d is found. */
    method GiveUp(k: nat, prev: nat, d: nat, ghost j: nat, obj: nat)
      requires Valid() && obj in owner && owner[obj].d == d && k < 9 && IsAt(lists, at, k, j, d, prev)
      modifies this
      ensures Valid() && owner == old(owner) - {obj} && page == old(page)
      ensures SamePages(old(pages), descPages, old(home), pages, descPages, home)
      ensures page[d] in pages <==> forall a | a in owner :: PageOf(a) != page[d]
    {
      PutObject(d, obj);
      Settle(k, prev, d, j);
    }

    /** free_s. It fails only on an object of a smaller size than the caller claims; the page
        goes back exactly when no object in it is left. */
    method FreeS(obj: nat, least: nat) returns (ok: bool)
      requires Valid() && obj in owner
      modifies this
      ensures ok <==> least <= old(owner)[obj].size
      ensures Valid() && SamePages(old(pages), descPages, old(home), pages, descPages, home)
      ensures owner == if ok then old(owner) - {obj} else old(owner)
      ensures PageOf(obj) in pages <==> forall a | a in owner :: PageOf(a) != PageOf(obj)
    {
      PageHome(page, size, at, free, owner, pages, descPages, home, obj);
      var k, prev, d;
      ghost var j;
      k, prev, d, j := FindPage(PageOf(obj), least);
      if d == 0 {
        PageKept(mem, page, size, freeptr, refcnt, at, free, owner, pages, descPages, home, owner[obj].d);
        return false;
      }
      GiveUp(k, prev, d, j, obj);
      ok := true;
    }
  }

  /** The live objects are those of before and a new one of z bytes. */
  predicate Added(owner: map<nat, Place>, owner': map<nat, Place>, r: nat, z: nat) {
    r != 0 && r !in owner && r in owner' && owner' == owner[r := owner'[r]] && owner'[r].size == z
  }

  /** d is node j of chain k, and prev the one before it from the head. */
  predicate IsAt(lists: seq<seq<nat>>, at: Words, k: nat, j: nat, d: nat, prev: nat) {
    && k < |lists| && j < |lists[k]| && lists[k][j] == d && d in at && at[d] == k
    && prev == (if j + 1 == |lists[k]| then 0 else lists[k][j + 1])
  }

  /** Bucket d is new, and the only one with nothing handed out. */
  predicate Opened(d: nat, k: nat, at: Words, refcnt: Words, at': Words, refcnt': Words, free': map<nat, seq<nat>>)
  {
    d !in at && at' == at[d := k] && refcnt' == refcnt[d := 0] && d in free' && free'[d] != []
  }

  predicate Linking(mem: Words, page: nat, size: nat, n: nat) {
    forall i: nat, j: nat | i < j < i + 2 && j <= n :: Word(mem, At(page, size, i)) == At(page, size, j)
  }

  lemma LinkNext(mem: Words, mem': Words, p: nat, z: nat, j: nat)
    requires 16 <= z <= 4096 && Linking(mem', p, z, j) && SameOutside(mem, mem', p) && j + 1 < Objects(z)
    ensures At(p, z, j + 1) == At(p, z, j) + z
    ensures var mem1 := mem'[At(p, z, j) := At(p, z, j + 1)]; Linking(mem1, p, z, j + 1) && SameOutside(mem, mem1, p)
  {
    NextAt(p, z, j);
    Earlier(p, z, j);
    StoreOutside(mem, mem', p, z, j, At(p, z, j + 1));
  }

  lemma NextAt(p: nat, z: nat, j: nat)
    ensures At(p, z, j + 1) == At(p, z, j) + z
  {
    assert (j + 1) * z == j * z + z;
  }

  lemma Earlier(p: nat, z: nat, j: nat)
    requires z > 0
    ensures forall i: nat | i < j :: At(p, z, i) != At(p, z, j)
  {
    forall i: nat | i < j ensures At(p, z, i) != At(p, z, j) { AtInjective(p, z, i, j); }
  }

  lemma StoreOutside(mem: Words, mem': Words, p: nat, z: nat, j: nat, v: nat)
    requires SameOutside(mem, mem', p) && z > 0 && j < Objects(z)
    ensures SameOutside(mem, mem'[At(p, z, j) := v], p)
  {
    Fits(z, j);
  }

  lemma LinkEnd(mem: Words, mem': Words, p: nat, z: nat, j: nat)
    requires 16 <= z <= 4096 && Linking(mem', p, z, j) && SameOutside(mem, mem', p) && j + 1 == Objects(z)
    ensures var mem1 := mem'[At(p, z, j) := 0]; Carved(mem1, p, z, j + 1) && SameOutside(mem, mem1, p)
  {
    Earlier(p, z, j);
    StoreOutside(mem, mem', p, z, j, 0);
  }

  lemma ObjectsFit(z: nat)
    requires 16 <= z <= 4096
    ensures Objects(z) >= 1
  {
  }

  lemma IdleHead(next: Words, head: nat, idle: seq<nat>, at: Words)
    requires Idle(next, head, idle, at) && head != 0
    ensures idle != [] && idle[|idle| - 1] == head && head in next && head !in at
  {
  }

  lemma StockedNew(page: Words, size: Words, at: Words, free: map<nat, seq<nat>>, owner: map<nat, Place>,
      pages: set<nat>, descPages: set<nat>, home: Words, d: nat, k: nat, p: nat)
    requires Apart(page, at, pages, descPages, home) && Owned(page, size, at, free, owner) && Sized(size, at)
    requires p in pages && d !in at && k < 9
    ensures Owned(page[d := p], size[d := Size(k)], at[d := k], free[d := Downward(Objects(Size(k)))], owner)
    ensures Apart(page[d := p], at[d := k], pages - {p}, descPages, home[p := d])
    ensures Sized(size[d := Size(k)], at[d := k])
    ensures SamePages(pages, descPages, home, pages - {p}, descPages, home[p := d])
  {
    NewOwned(page, size, at, free, owner, d, k, Size(k), p);
    NewApart(page, at, pages, descPages, home, d, k, p);
    forall e | e in at ensures e != d ==> SizedAt(size[d := Size(k)], at[d := k], e) { assert SizedAt(size, at, e); }
  }

  lemma ChainNext(next: Words, dir: seq<nat>, lists: seq<seq<nat>>, at: Words, k: nat, i: nat)
    requires Chains(next, dir, lists, at) && k < 9 && i < |lists[k]|
    ensures lists[k][i] in next && next[lists[k][i]] == (if i == 0 then 0 else lists[k][i - 1])
    ensures i > 0 ==> lists[k][i - 1] in at && at[lists[k][i - 1]] == k
  {
    assert Chain(next, dir[k], lists[k]);
    if i > 0 { assert next[lists[k][i]] == lists[k][i - 1]; }
  }

  lemma LastFree(mem: Words, page: Words, size: Words, freeptr: Words, refcnt: Words, at: Words,
      free: map<nat, seq<nat>>, d: nat)
    returns (i: nat, rest: seq<nat>)
    requires Buckets(mem, page, size, freeptr, refcnt, at, free) && d in at && free[d] != []
    ensures IsPush(free[d], rest, i) && i !in rest && i < Objects(size[d])
  {
    i, rest := free[d][|free[d]| - 1], free[d][..|free[d]| - 1];
    assert Bucket(mem, page[d], freeptr[d], refcnt[d], size[d], free[d]);
  }

  lemma TakeStocked(mem: Words, page: Words, size: Words, freeptr: Words, refcnt: Words, at: Words,
      free: map<nat, seq<nat>>, owner: map<nat, Place>, pages: set<nat>, descPages: set<nat>, home: Words, d: nat)
    returns (i: nat, rest: seq<nat>)
    requires Buckets(mem, page, size, freeptr, refcnt, at, free) && Apart(page, at, pages, descPages, home)
    requires Owned(page, size, at, free, owner) && d in at && free[d] != []
    ensures freeptr[d] != 0 && freeptr[d] !in owner
    ensures Buckets(mem, page, size, freeptr[d := Word(mem, freeptr[d])], refcnt[d := refcnt[d] + 1], at,
                    free[d := rest])
    ensures Owned(page, size, at, free[d := rest], owner[freeptr[d] := Place(d, i, size[d])])
  {
    i, rest := LastFree(mem, page, size, freeptr, refcnt, at, free, d);
    TakeBuckets(mem, page, size, freeptr, refcnt, at, free, d, rest, i);
    TakeOwned(page, size, at, free, owner, pages, descPages, home, d, rest, i);
    assert Page(page[d]);
  }

  lemma Without(xs: seq<nat>, j: nat) returns (ys: seq<nat>)
    requires j < |xs|
    ensures IsWithout(ys, xs, j)
  {
    ys := xs[..j] + xs[j + 1..];
  }

  lemma HeadNode(next: Words, dir: seq<nat>, lists: seq<seq<nat>>, at: Words, k: nat, j: nat)
    requires Chains(next, dir, lists, at) && k < 9
    ensures j + 1 < |lists[k]| ==> lists[k][j + 1] != 0
  {
    assert Chain(next, dir[k], lists[k]);
  }

  lemma UnlinkKept(next: Words, next': Words, dir: seq<nat>, dir': seq<nat>, head: nat, lists: seq<seq<nat>>,
      idle: seq<nat>, at: Words, descPages: set<nat>, k: nat, j: nat, prev: nat, d: nat, xs: seq<nat>, ys: seq<nat>)
    requires Chains(next, dir, lists, at) && Idle(next, head, idle, at) && Conserved(next, idle, at, descPages)
    requires k < 9 && IsAt(lists, at, k, j, d, prev) && IsWithout(xs, lists[k], j) && IsPush(ys, idle, d)
    requires d in next && d != 0
    requires if prev == 0 then j + 1 == |lists[k]| && next' == next && dir' == dir[k := next[d]]
             else j + 1 < |lists[k]| && next' == next[prev := next[d]] && prev in at && prev in next && dir' == dir
    ensures var next1 := next'[d := head];
            Chains(next1, dir', lists[k := xs], at - {d}) && Idle(next1, d, ys, at - {d}) &&
            Conserved(next1, ys, at - {d}, descPages)
  {
    ChainsRemove(next, next', dir, dir'[k], lists, at, k, j, xs);
    assert dir[k := dir'[k]] == dir';
    ChainsFrame(next', next'[d := head], dir', lists[k := xs], at - {d});
    ChainFrame(next, next', head, idle);
    IdlePush(next', head, idle, at, d, ys);
    PushConserved(next, next'[d := head], idle, at, descPages, d, ys);
  }

  lemma SizedLess(size: Words, at: Words, d: nat)
    requires Sized(size, at)
    ensures Sized(size, at - {d})
  {
    forall e | e in at && e != d ensures SizedAt(size, at - {d}, e) { assert SizedAt(size, at, e); }
  }

  /** The page an object lies in leads to its descriptor, and to no other. */
  lemma PageHome(page: Words, size: Words, at: Words, free: map<nat, seq<nat>>, owner: map<nat, Place>,
      pages: set<nat>, descPages: set<nat>, home: Words, obj: nat)
    requires Apart(page, at, pages, descPages, home) && Owned(page, size, at, free, owner) && Sized(size, at)
    requires obj in owner
    ensures var d := owner[obj].d;
            && d in at && at[d] < 9 && owner[obj].size == Size(at[d]) && page[d] == PageOf(obj)
            && forall e | e in at && page[e] == PageOf(obj) :: e == d
  {
    var o := owner[obj];
    assert OwnedBy(page, size, at, free, obj, o) && SizedAt(size, at, o.d);
    InPageOf(page[o.d], o.size, o.i);
  }

  lemma PageKept(mem: Words, page: Words, size: Words, freeptr: Words, refcnt: Words, at: Words,
      free: map<nat, seq<nat>>, owner: map<nat, Place>, pages: set<nat>, descPages: set<nat>, home: Words, d: nat)
    requires Buckets(mem, page, size, freeptr, refcnt, at, free) && Apart(page, at, pages, descPages, home)
    requires Owned(page, size, at, free, owner) && d in at && refcnt[d] > 0
    ensures page[d] !in pages && exists a :: a in owner && PageOf(a) == page[d]
  {
    assert Bucket(mem, page[d], freeptr[d], refcnt[d], size[d], free[d]);
    var i := SomeOut(free[d], Objects(size[d]));
    assert Out(at, size, free, d, i);
    InPageOf(page[d], size[d], i);
    assert At(page[d], size[d], i) in owner;
  }

  lemma SomeOut(xs: seq<nat>, n: nat) returns (i: nat)
    requires |xs| < n && Distinct(xs)
    ensures i < n && i !in xs
  {
    MembersSize(xs);
    SubsetSize(Room(n), Members(xs));
    i :| i in Room(n) && i !in Members(xs);
  }

  lemma SubsetSize(a: set<nat>, b: set<nat>)
    ensures a <= b ==> |a| <= |b|
  {
    assert a <= b ==> b == a + (b - a);
  }

  lemma PageGone(mem: Words, page: Words, size: Words, freeptr: Words, refcnt: Words, at: Words,
      free: map<nat, seq<nat>>, owner: map<nat, Place>, pages: set<nat>, descPages: set<nat>, home: Words, d: nat)
    requires Buckets(mem, page, size, freeptr, refcnt, at, free) && Apart(page, at, pages, descPages, home)
    requires Owned(page, size, at, free, owner) && Sized(size, at) && d in at && refcnt[d] == 0
    ensures forall a | a in owner :: PageOf(a) != page[d]
  {
    AllBack(mem, page, size, freeptr, refcnt, at, free, owner, d);
    forall a | a in owner ensures PageOf(a) != page[d]
    {
      PageHome(page, size, at, free, owner, pages, descPages, home, a);
    }
  }

  lemma FreshVacant(next: Words, dir: seq<nat>, lists: seq<seq<nat>>, idle: seq<nat>, at: Words, page: Words,
      pages: set<nat>, descPages: set<nat>, home: Words, first: nat)
    requires Chains(next, dir, lists, at) && Conserved(next, idle, at, descPages)
    requires Apart(page, at, pages, descPages, home) && first in pages
    ensures Vacant(next, first) && first !in descPages && forall d | d in at :: PageOf(d) != first
  {
    UsedDescs(next, dir, lists, at);
  }

  lemma UsedDescs(next: Words, dir: seq<nat>, lists: seq<seq<nat>>, at: Words)
    requires Chains(next, dir, lists, at)
    ensures forall d | d in at :: d in next && d != 0
  {
    forall d | d in at ensures d in next && d != 0 {
      assert OnList(lists, at, d);
      var i: nat :| i < |lists[at[d]]| && lists[at[d]][i] == d;
      assert Chain(next, dir[at[d]], lists[at[d]]);
    }
  }

  lemma CutList(idle: seq<nat>, first: nat) returns (ys: seq<nat>)
    ensures IsCut(ys, idle, first)
  {
    ys := idle + seq(256, i requires 0 <= i < 256 => first + 16 * (255 - i));
  }

  lemma CutChains(next: Words, next': Words, dir: seq<nat>, lists: seq<seq<nat>>, at: Words, first: nat, head: nat)
    requires Chains(next, dir, lists, at) && Vacant(next, first) && PartCut(next, next', first, 255)
    ensures Chains(next'[first + 16 * 255 := head], dir, lists, at)
  {
    SlotNew(next, next', first, 255);
    ChainsFrame(next, next'[first + 16 * 255 := head], dir, lists, at);
  }

  lemma CutKept(next: Words, next': Words, dir: seq<nat>, head: nat, lists: seq<seq<nat>>, idle: seq<nat>,
      at: Words, descPages: set<nat>, first: nat, ys: seq<nat>)
    requires Chains(next, dir, lists, at) && Idle(next, head, idle, at) && Conserved(next, idle, at, descPages)
    requires Vacant(next, first) && first !in descPages && (forall d | d in at :: PageOf(d) != first)
    requires PartCut(next, next', first, 255) && IsCut(ys, idle, first)
    ensures var next1 := next'[first + 16 * 255 := head];
            Chains(next1, dir, lists, at) && Idle(next1, first, ys, at) && Conserved(next1, ys, at, descPages + {first})
  {
    CutIdle(next, next', head, idle, at, first, ys);
    CutConserved(next, next', idle, at, descPages, first, head, ys);
    CutChains(next, next', dir, lists, at, first, head);
  }

  lemma CutApart(page: Words, at: Words, pages: set<nat>, descPages: set<nat>, home: Words, first: nat)
    requires Apart(page, at, pages, descPages, home) && first in pages
    ensures Apart(page, at, pages - {first}, descPages + {first}, home)
    ensures SamePages(pages, descPages, home, pages - {first}, descPages + {first}, home)
  {
  }
}
