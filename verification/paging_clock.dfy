/** How far swap_out's clock hand gets before its counter runs out. */
module PagingClock {
  import opened Wrappers
  import opened PagingState
  import opened PagingSteps

  const VM_DIRS: nat := 1024 - FIRST_VM_DIR

  /** The directory j behind h, past the last one on from the first. */
  function Ring(h: nat, j: nat): (d: nat)
    requires h >= FIRST_VM_DIR
    ensures FIRST_VM_DIR <= d < 1024
  {
    FIRST_VM_DIR + (h - FIRST_VM_DIR + j) % VM_DIRS
  }

  lemma RingStart(h: nat)
    requires FIRST_VM_DIR <= h < 1024
    ensures Ring(h, 0) == h && Ring(h, VM_DIRS) == h
  {
  }

  lemma RingNext(h: nat, j: nat)
    requires FIRST_VM_DIR <= h < 1024
    ensures Ring(h, j + 1) == if Ring(h, j) + 1 >= 1024 then FIRST_VM_DIR else Ring(h, j) + 1
  {
    var x := h - FIRST_VM_DIR + j;
    assert x == VM_DIRS * (x / VM_DIRS) + x % VM_DIRS;
    if x % VM_DIRS == VM_DIRS - 1 {
      assert (x + 1) == VM_DIRS * (x / VM_DIRS + 1);
    } else {
      assert (x + 1) / VM_DIRS == x / VM_DIRS;
    }
  }

  /** How far d is behind h. */
  function Behind(h: nat, d: nat): (j: nat)
    requires FIRST_VM_DIR <= h < 1024 && FIRST_VM_DIR <= d < 1024
    ensures j < VM_DIRS && Ring(h, j) == d
  {
    if d >= h then d - h else d + VM_DIRS - h
  }

  lemma RingRing(h: nat, i: nat, j: nat)
    requires FIRST_VM_DIR <= h < 1024
    ensures Ring(Ring(h, i), j) == Ring(h, i + j)
  {
    var x := h - FIRST_VM_DIR + i;
    assert x == VM_DIRS * (x / VM_DIRS) + x % VM_DIRS;
    assert (x % VM_DIRS + j) % VM_DIRS == (x + j) % VM_DIRS;
  }

  lemma BehindIs(h: nat, j: nat)
    requires FIRST_VM_DIR <= h < 1024 && j < VM_DIRS
    ensures Behind(h, Ring(h, j)) == j
  {
    if h - FIRST_VM_DIR + j >= VM_DIRS { assert Ring(h, j) == h + j - VM_DIRS; }
  }

  /** What a sweep from directory h with the hand on page p does not reach again: the first p + 1
      pages of the first table, if the counter was spent on getting there; or page 0, if the hand
      was on it and the directory before that table has none. */
  ghost predicate Missed(s: State, h: nat, p: int, d: nat, e: nat) {
    && User(d, e) && e <= p && FIRST_VM_DIR <= h < 1024 && s.dir[d].Some?
    && (forall j: nat | j < Behind(h, d) :: s.dir[Ring(h, j)].None?)
    && (d != h || (p == 0 && s.dir[Ring(d, VM_DIRS - 1)].None?))
  }

  /** Nothing can be evicted but what the sweep misses. */
  ghost predicate NoVictim(s: State, h: nat, p: int) {
    forall d: nat, e: nat | User(d, e) && Evict(s, d, e).Some? :: Missed(s, h, p, d, e)
  }

  /** No frame is free, and a sweep from somewhere finds nothing to evict. */
  ghost predicate OutOfMemory(s: State) {
    TakePage(s).None? && exists h: nat, p: int :: FIRST_VM_DIR <= h < 1024 && -1 <= p < 1024 && NoVictim(s, h, p)
  }

  /** The sweep begins at `top`, the first directory from h on that has a table. */
  ghost predicate Top(s: State, h: nat, m: nat, p0: int, top: nat) {
    && FIRST_VM_DIR <= h < 1024 && m < VM_DIRS && -1 <= p0 < 1024 && top == Ring(h, m) && s.dir[top].Some?
    && forall j: nat | j < m :: s.dir[Ring(h, j)].None?
  }

  predicate Tried(s: State, p0: int, top: nat, j: nat, e: nat)
    requires top >= FIRST_VM_DIR
  {
    e < 1024 && (j > 0 || e > p0) ==> Evict(s, Ring(top, j), e).None?
  }

  /** What is left of the counter when the hand is k directories on, before the first page. */
  function Left(m: nat, p0: int, k: nat): int {
    1024 * (VM_DIRS - m - k) + p0
  }

  /** The first k directories from `top` on have been tried. */
  ghost predicate Swept(s: State, h: nat, m: nat, p0: int, top: nat, k: nat) {
    Top(s, h, m, p0, top) && forall j: nat, e: nat | j < k && j < VM_DIRS :: Tried(s, p0, top, j, e)
  }

  /** The hand is on page p of directory dir, the k-th from `top` on. */
  ghost predicate SweepAt(s: State, h: nat, m: nat, p0: int, top: nat, k: nat, p: int, dir: nat) {
    && Swept(s, h, m, p0, top, k) && k <= VM_DIRS && dir == Ring(top, k) && s.dir[dir].Some? && -1 <= p < 1024
    && (forall e: nat | e <= p :: Tried(s, p0, top, k, e))
    && (k == 0 ==> p >= p0)
    && (k == VM_DIRS ==> m == 0 && (s.dir[Ring(top, VM_DIRS - 1)].None? ==> p0 > 0))
  }

  lemma NoTableNoVictim(s: State, d: nat, e: nat)
    requires d < 1024 && s.dir[d].None?
    ensures Evict(s, d, e).None?
  {
  }

  lemma NothingThere(s: State, h: nat, p: int)
    requires FIRST_VM_DIR <= h < 1024 && forall j: nat | j < VM_DIRS :: s.dir[Ring(h, j)].None?
    ensures NoVictim(s, h, p)
  {
    forall d: nat, e: nat | User(d, e) ensures Evict(s, d, e).None? {
      assert s.dir[Ring(h, Behind(h, d))].None?;
    }
  }

  /** From VM_DIRS - m directories behind `top` on come those that were skipped to reach it. */
  lemma SkippedAgain(s: State, h: nat, m: nat, p0: int, top: nat, j: nat)
    requires Top(s, h, m, p0, top) && VM_DIRS - m <= j < VM_DIRS
    ensures s.dir[Ring(top, j)].None?
  {
    RingRing(h, m, j);
    RingWrap(h, m + j - VM_DIRS);
    assert Ring(top, j) == Ring(h, m + j - VM_DIRS);
  }

  lemma RingWrap(h: nat, j: nat)
    requires FIRST_VM_DIR <= h < 1024
    ensures Ring(h, j + VM_DIRS) == Ring(h, j)
  {
    assert (h - FIRST_VM_DIR + j + VM_DIRS) % VM_DIRS == (h - FIRST_VM_DIR + j) % VM_DIRS;
  }

  /** The first table from h on is at `top`, nowhere else. */
  lemma FirstTable(s: State, h: nat, m: nat, p0: int, top: nat, p: int, d: nat, e: nat)
    requires Top(s, h, m, p0, top) && Missed(s, h, p, d, e)
    ensures d == top
  {
    BehindIs(h, m);
    assert Ring(h, Behind(h, d)) == d;
  }

  lemma IsMissed(s: State, h: nat, m: nat, p0: int, top: nat, e: nat)
    requires Top(s, h, m, p0, top) && e < 1024 && e <= p0
    requires m > 0 || (p0 == 0 && s.dir[Ring(top, VM_DIRS - 1)].None?)
    ensures Missed(s, h, p0, top, e)
  {
    BehindIs(h, m);
    RingStart(h);
    if m > 0 { BehindIs(h, 0); }
  }

  lemma SweepTried(s: State, h: nat, m: nat, p0: int, top: nat, k: nat, p: nat, dir: nat)
    requires SweepAt(s, h, m, p0, top, k, p - 1, dir) && p < 1024
    ensures Evict(s, dir, p).None? ==> SweepAt(s, h, m, p0, top, k, p, dir)
    ensures Evict(s, dir, p).Some? ==> !Missed(s, h, p0, dir, p)
  {
    RingStart(top);
    RingStart(h);
    BehindIs(top, 0);
    if k < VM_DIRS { BehindIs(top, k); }
    if Missed(s, h, p0, dir, p) { FirstTable(s, h, m, p0, top, p0, dir, p); }
  }

  /** The next directory of the ring. */
  lemma SweepOn(s: State, h: nat, m: nat, p0: int, top: nat, k: nat, dir: nat)
    requires Swept(s, h, m, p0, top, k + 1) && dir == Ring(top, k)
    ensures Ring(top, k + 1) == if dir + 1 >= 1024 then FIRST_VM_DIR else dir + 1
  {
    RingNext(top, k);
  }

  lemma SweepTable(s: State, h: nat, m: nat, p0: int, top: nat, k: nat, dir: nat)
    requires Swept(s, h, m, p0, top, k) && 0 < k <= VM_DIRS && dir == Ring(top, k) && s.dir[dir].Some?
    requires k == VM_DIRS ==> m == 0 && (s.dir[Ring(top, VM_DIRS - 1)].None? ==> p0 > 0)
    ensures SweepAt(s, h, m, p0, top, k, -1, dir)
  {
  }

  lemma SweepHole(s: State, h: nat, m: nat, p0: int, top: nat, k: nat, dir: nat)
    requires Swept(s, h, m, p0, top, k) && dir == Ring(top, k) && s.dir[dir].None?
    ensures Swept(s, h, m, p0, top, k + 1)
  {
    forall j: nat, e: nat | j < k + 1 && j < VM_DIRS ensures Tried(s, p0, top, j, e) {
      if j == k { NoTableNoVictim(s, dir, e); }
    }
  }

  /** All directories but those skipped at the beginning have been tried: only the beginning of the
      first table is left. */
  lemma AllTried(s: State, h: nat, m: nat, p0: int, top: nat, k: nat, d: nat, e: nat)
    requires Swept(s, h, m, p0, top, k) && k + m >= VM_DIRS && User(d, e) && (d != top || e > p0)
    ensures Evict(s, d, e).None?
  {
    var j := Behind(top, d);
    RingStart(top);
    if j < k {
      assert Tried(s, p0, top, j, e);
    } else {
      SkippedAgain(s, h, m, p0, top, j);
      NoTableNoVictim(s, d, e);
    }
  }

  /** The counter runs out among directories without tables. */
  lemma SweepOver(s: State, h: nat, m: nat, p0: int, top: nat, k: nat, dir: nat)
    requires Swept(s, h, m, p0, top, k + 1) && dir == Ring(top, k) && s.dir[dir].None? && k <= VM_DIRS
    requires 1024 * (VM_DIRS - m - k - 1) + p0 <= 0
    ensures NoVictim(s, h, p0)
  {
    RingStart(top);
    assert k < VM_DIRS;
    forall d: nat, e: nat | User(d, e) && Evict(s, d, e).Some? ensures Missed(s, h, p0, d, e) {
      if d != top || e > p0 {
        AllTried(s, h, m, p0, top, k + 1, d, e);
      } else {
        IsMissed(s, h, m, p0, top, e);
      }
    }
  }

  /** The hand has passed the last page of directory dir. */
  lemma SweptDirectory(s: State, h: nat, m: nat, p0: int, top: nat, k: nat, dir: nat)
    requires SweepAt(s, h, m, p0, top, k, 1023, dir) && Left(m, p0, k + 1) >= 0
    ensures Swept(s, h, m, p0, top, k + 1) && k < VM_DIRS && dir == Ring(top, k) && s.dir[dir].Some?
  {
    forall j: nat, e: nat | j < k + 1 && j < VM_DIRS ensures Tried(s, p0, top, j, e) {
      assert j == k && e < 1024 ==> Tried(s, p0, top, k, e);
    }
  }

  /** One step of the hand to the next directory, the counter c being what it is after page 1023. */
  lemma NextDirectory(s: State, h: nat, m: nat, p0: int, top: nat, k0: nat, k: nat, c: int, dir: nat, next: nat)
    requires Swept(s, h, m, p0, top, k + 1) && k < VM_DIRS && c == Left(m, p0, k + 1) && dir == Ring(top, k)
    requires if k == k0 then c >= 0 && s.dir[dir].Some? else c > 0
    requires next == if dir + 1 >= 1024 then FIRST_VM_DIR else dir + 1
    ensures
      && next == Ring(top, k + 1)
      && (s.dir[next].Some? ==> SweepAt(s, h, m, p0, top, k + 1, -1, next) && c >= 0)
      && c - 1024 == Left(m, p0, k + 2)
      && (s.dir[next].None? ==> k + 1 < VM_DIRS && Swept(s, h, m, p0, top, k + 2))
      && (s.dir[next].None? && c - 1024 <= 0 ==> NoVictim(s, h, p0))
  {
    SweepOn(s, h, m, p0, top, k, dir);
    RingStart(top);
    if s.dir[next].Some? {
      SweepTable(s, h, m, p0, top, k + 1, next);
    } else {
      SweepHole(s, h, m, p0, top, k + 1, next);
      if c - 1024 <= 0 { SweepOver(s, h, m, p0, top, k + 1, next); }
    }
  }

  /** The counter runs out at a page. */
  lemma SweepDone(s: State, h: nat, m: nat, p0: int, top: nat, k: nat, p: int, dir: nat)
    requires SweepAt(s, h, m, p0, top, k, p, dir) && 1024 * (VM_DIRS - m - k) + p0 - p <= 0
    ensures NoVictim(s, h, p0)
  {
    RingStart(top);
    if VM_DIRS - m <= k < VM_DIRS { SkippedAgain(s, h, m, p0, top, k); }
    assert k == VM_DIRS || (p0 == -1 && p == 1023 && k + 1 == VM_DIRS - m);
    forall d: nat, e: nat | User(d, e) ensures Evict(s, d, e).None? {
      if k == VM_DIRS {
        if d != top || e > p0 { AllTried(s, h, m, p0, top, k, d, e); } else { assert Tried(s, p0, top, k, e); }
      } else {
        forall j: nat, x: nat | j < k + 1 && j < VM_DIRS ensures Tried(s, p0, top, j, x) {
          assert j == k && x < 1024 ==> Tried(s, p0, top, k, x);
        }
        AllTried(s, h, m, p0, top, k + 1, d, e);
      }
    }
  }
}
