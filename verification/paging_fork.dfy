/** What the loops of copy_page_tables and free_page_tables have achieved so far. */
module PagingFork {
  import opened Wrappers
  import opened PagingState
  import opened PagingOps
  import opened PagingSteps
  import opened PagingReclaim
  import Runs = PagingRuns

  const DIR_BYTES: nat := 0x400000

  function Pages(size: nat): nat {
    (size + 0xFFF) / 4096
  }

  function Dirs(size: nat): nat {
    (size + 0x3FFFFF) / DIR_BYTES
  }

  /** The entry count copy_page_tables uses for the last directory: masked to 12 bits. */
  function LastCount(size: nat): nat {
    var tmp := Pages(size) % 4096;
    if tmp == 0 && size != 0 then 1024 else tmp
  }

  /** How many pages of directory i (of the range) are copied. */
  function CountIn(size: nat, i: nat): nat {
    if i + 1 == Dirs(size) then LastCount(size) else 1024
  }

  lemma DirsOfPages(size: nat)
    requires size > 0
    ensures Dirs(size) == (Pages(size) + 1023) / 1024 && Pages(size) >= 1
  {
    var p := Pages(size);
    var r := size - 4096 * (p - 1);
    var d, t := (p + 1023) / 1024, (p + 1023) % 1024;
    assert size + 0x3FFFFF == DIR_BYTES * d + (4096 * t + r - 1);
    assert 0 <= 4096 * t + r - 1 < DIR_BYTES;
  }

  /** The mask is right exactly for sizes whose page count leaves at most 1024 modulo 4096;
      for all others the loop would run past the end of the last table. */
  lemma LastCountRight(size: nat)
    requires size > 0
    ensures LastCount(size) <= 1024 <==> Pages(size) % 4096 <= 1024
    ensures LastCount(size) <= 1024 <==> 1024 * (Dirs(size) - 1) + LastCount(size) == Pages(size)
  {
    DirsOfPages(size);
    var p := Pages(size);
    var q, m := p / 4096, p % 4096;
    assert p == 4096 * q + m;
    if m == 0 {
      assert (p + 1023) / 1024 == 4 * q;
    } else if m <= 1024 {
      assert (p + 1023) / 1024 == 4 * q + 1;
    } else {
      assert (p + 1023) / 1024 >= 4 * q + 2;
    }
  }

  predicate InRange(d: nat, td: nat, n: nat) {
    td <= d < td + n
  }

  /** The count that is used when n directories are still to come after td. */
  lemma CountNow(size: nat, to: nat, td: nat, n: nat, tmp: nat, dirs: nat)
    requires td + n + 1 == to + dirs && to <= td && dirs == Dirs(size) && tmp == LastCount(size)
    ensures InRange(td, to, Dirs(size)) && CountIn(size, td - to) == if n == 0 then tmp else 1024
  {
  }

  /** A row of the kernel's own tables whose first n entries map memory below LOW_MEM. */
  ghost predicate LowRow(s: State, d: nat, n: nat) {
    && d < FIRST_VM_DIR && s.dir[d].Some? && s.dir[d].value < LOWF && s.mem[s.dir[d].value].Ptes?
    && forall e: nat | e < n && e < 1024 :: LowEntry(s, Entry(s, d, e))
  }

  predicate LowEntry(s: State, p: Pte) {
    p.Present? && p.pfn < LOWF && s.mem[p.pfn].Bytes?
  }

  /** Every page outside directories td..td+n is kept; clean pages unlike their image may have
      been reclaimed. */
  ghost predicate OutsideSame(s0: State, s: State, td: nat, n: nat) {
    && SameLow(s0, s)
    && (forall d: nat | d < 1024 && !InRange(d, td, n) :: s.dir[d] == s0.dir[d] && s.image[d] == s0.image[d])
    && (forall d: nat, e: nat | User(d, e) && !InRange(d, td, n) :: Kept(s0, d, s, d, e))
  }

  lemma OutsideTrans(s0: State, s1: State, s2: State, td: nat, n: nat)
    requires OutsideSame(s0, s1, td, n) && OutsideSame(s1, s2, td, n)
    ensures OutsideSame(s0, s2, td, n)
  {
    forall d: nat, e: nat | User(d, e) && !InRange(d, td, n) ensures Kept(s0, d, s2, d, e) {
      KeptTrans(s0, d, s1, d, s2, d, e);
    }
  }

  lemma ReclaimOutside(s: State, vs: seq<(nat, nat)>, td: nat, n: nat)
    requires Inv(s) && Reclaims(s, vs).Some?
    ensures OutsideSame(s, Reclaims(s, vs).value, td, n)
  {
    ReclaimsKeep(s, vs);
  }

  /** Where the fork stands: child rows before dc are complete, row dc up to entry e. The child
      has the parent's page of the beginning, unless that was a clean page unlike its image. */
  ghost predicate ChildSees(s0: State, s: State, fd: nat, td: nat, size: nat, dc: nat, e: nat) {
    forall d: nat, x: nat | x < 1024 && td <= d && (if d < dc then x < CountIn(size, d - td) else d == dc && x < e) ::
      Given(s0, s, fd, td, d, x)
  }

  /** The child has the parent's page. */
  ghost predicate Given(s0: State, s: State, fd: nat, td: nat, d: nat, x: nat) {
    td <= d && Kept(s0, d - td + fd, s, d, x)
  }

  lemma GivenTrans(s0: State, s: State, s': State, fd: nat, td: nat, d: nat, x: nat)
    requires Given(s0, s, fd, td, d, x) && Kept(s, d, s', d, x) && s.image == s0.image && SameRow(s0, fd, td, d)
    ensures Given(s0, s', fd, td, d, x)
  {
    KeptTrans(s0, d - td + fd, s, d, s', d, x);
  }

  /** Row d of the child runs the same executable as the parent's. */
  ghost predicate SameRow(s: State, fd: nat, td: nat, d: nat) {
    td <= d < 1024 && d - td + fd < 1024 && s.image[d] == s.image[d - td + fd]
  }

  ghost predicate RowsMissing(s: State, dc: nat, end: nat) {
    forall d: nat | dc <= d < end && d < 1024 :: s.dir[d].None?
  }

  ghost predicate RestEmpty(s: State, dc: nat, e: nat) {
    forall x: nat | e <= x < 1024 :: Entry(s, dc, x) == Absent
  }

  predicate ForkRange(fd: nat, td: nat, n: nat) {
    && fd + n <= 1024 && FIRST_VM_DIR <= td && td + n <= 1024 && fd % TASK_DIRS == td % TASK_DIRS
    && (fd + n <= td || td + n <= fd) && (fd >= FIRST_VM_DIR || fd + n <= FIRST_VM_DIR)
  }

  /** The rows that are read: those of a user task, or kernel rows of low memory. */
  ghost predicate Source(s: State, fd: nat, n: nat, size: nat) {
    fd >= FIRST_VM_DIR || forall d: nat | fd <= d < fd + n :: SourceRow(s, fd, d, size)
  }

  ghost predicate SourceRow(s: State, fd: nat, d: nat, size: nat) {
    fd <= d && LowRow(s, d, CountIn(size, d - fd))
  }

  lemma LowRowStays(s0: State, s: State, d: nat, n: nat)
    requires LowRow(s0, d, n) && SameLow(s0, s) && s.dir[d] == s0.dir[d]
    ensures LowRow(s, d, n)
    ensures forall e: nat | e < n && e < 1024 :: Kept(s0, d, s, d, e)
  {
    assert forall e: nat :: Entry(s, d, e) == Entry(s0, d, e);
    forall e: nat | e < n && e < 1024 ensures Kept(s0, d, s, d, e) {
      assert LowEntry(s0, Entry(s0, d, e)) && Entry(s, d, e) == Entry(s0, d, e);
    }
  }

  lemma SourceStays(s0: State, s: State, fd: nat, td: nat, n: nat, size: nat)
    requires ForkRange(fd, td, n) && OutsideSame(s0, s, td, n) && Source(s0, fd, n, size)
    ensures Source(s, fd, n, size)
    ensures forall d: nat, e: nat | fd <= d < fd + n && e < CountIn(size, d - fd) && e < 1024 :: Kept(s0, d, s, d, e)
  {
    if fd < FIRST_VM_DIR {
      forall d: nat | fd <= d < fd + n ensures SourceRow(s, fd, d, size) {
        assert SourceRow(s0, fd, d, size);
        LowRowStays(s0, s, d, CountIn(size, d - fd));
      }
      forall d: nat, e: nat | fd <= d < fd + n && e < CountIn(size, d - fd) && e < 1024 ensures Kept(s0, d, s, d, e) {
        assert SourceRow(s0, fd, d, size);
        LowRowStays(s0, s, d, CountIn(size, d - fd));
      }
    }
  }

  lemma InheritNothing(s: State, fd: nat, td: nat, e: nat)
    requires fd < 1024 && td < 1024 && s.image[td] == s.image[fd]
    ensures Inherit(s, fd, td, e) == s
  {
    if e < 1024 {
      assert s.image[td][e := s.image[fd][e]] == s.image[td];
      assert s.image[td := s.image[td]] == s.image;
    }
  }

  /** One copied entry, seen from outside the child. */
  lemma CopyOutside(s: State, fd: nat, td: nat, n: nat, d: nat, e: nat)
    requires Inv(s) && ForkRange(fd, td, n) && InRange(d, td, n) && e < 1024
    requires CopySource(s, d - td + fd, e) && s.image[d] == s.image[d - td + fd]
    requires CopyEntry(s, d - td + fd, d, e).Some?
    ensures var s' := CopyEntry(s, d - td + fd, d, e).value;
      && Inv(s') && (Backed(s) ==> Backed(s')) && OutsideSame(s, s', td, n) && s'.image == s.image && s'.dir == s.dir
      && View(s', d, e) == View(s, d - td + fd, e) && Kept(s, d - td + fd, s', d, e)
      && (forall d', x | User(d', x) && (d' != d || x != e) ::
            View(s', d', x) == View(s, d', x) && Kept(s, d', s', d', x))
      && (forall d', x | FIRST_VM_DIR <= d' < 1024 && x < 1024 && x != e :: Entry(s', d', x) == Entry(s, d', x))
  {
    var f := d - td + fd;
    assert f % TASK_DIRS == d % TASK_DIRS;
    CopyEntryStep(s, f, d, e);
    InheritNothing(s, f, d, e);
    var s' := CopyEntry(s, f, d, e).value;
    forall d': nat, x: nat | User(d', x) && (d' != d || x != e) ensures Kept(s, d', s', d', x) {
      OthersKept(s, s', d, e, d', x);
    }
    if Backed(s) {
      if f >= FIRST_VM_DIR { assert BackedAt(s, f, e); }
      forall d': nat, x: nat | User(d', x) ensures BackedAt(s', d', x) {
        assert BackedAt(s, d', x);
      }
    }
  }

  /** A new, empty page table is seen by nobody. */
  lemma TableViews(s: State, d: nat)
    requires Inv(s) && TakePage(s).Some? && FIRST_VM_DIR <= d < 1024 && s.dir[d].None?
    ensures var s' := NewTable(TakePage(s).value, d, TakenFrame(s));
      && Inv(s') && HasTable(s', d) && s'.image == s.image && SameLow(s, s') && SameViews(s, s') && AllKept(s, s')
      && (forall d': nat, e: nat | FIRST_VM_DIR <= d' < 1024 :: Entry(s', d', e) == Entry(s, d', e))
      && (Backed(s) ==> Backed(s'))
      && s'.held == s.held && s'.dir == s.dir[d := Some(TakenFrame(s))]
      && (forall f <- s.held :: f < TOTALF ==> s'.mem[f] == s.mem[f])
  {
    NewTableStep(s, d);
    TakePageInv(s);
    var f := TakenFrame(s);
    var s' := NewTable(TakePage(s).value, d, f);
    assert !Uses(s, AsKernel, f) by { FreeIsManaged(s, f); FreeFrameUnused(s, f, AsKernel); }
    forall d': nat, e: nat | User(d', e) ensures Kept(s, d', s', d', e) {
      assert Entry(s', d', e) == Entry(s, d', e);
    }
    KeptBacked(s, s');
  }

  /** The state of a fork: child rows before dc are done, row dc is done up to entry e, the
      rows from `missing` on have no table yet. */
  ghost predicate Forking(s0: State, s: State, fd: nat, td: nat, size: nat, dc: nat, e: nat, missing: nat) {
    && Inv(s) && (Backed(s0) ==> Backed(s)) && s.image == s0.image
    && OutsideSame(s0, s, td, Dirs(size)) && ChildSees(s0, s, fd, td, size, dc, e) &&
      RowsMissing(s, missing, td + Dirs(size))
  }

  ghost predicate MayFork(s: State, fd: nat, td: nat, size: nat) {
    && ForkRange(fd, td, Dirs(size)) && Source(s, fd, Dirs(size), size) && LastCount(size) <= 1024
    && forall d: nat | InRange(d, td, Dirs(size)) && d < 1024 :: SameRow(s, fd, td, d)
  }

  lemma ReclaimForking(s0: State, s: State, vs: seq<(nat, nat)>, fd: nat, td: nat, size: nat, dc: nat, e: nat,
      missing: nat)
    requires Forking(s0, s, fd, td, size, dc, e, missing) && Reclaims(s, vs).Some? && MayFork(s0, fd, td, size)
    requires td <= dc < td + Dirs(size) && e <= 1024 && (RestEmpty(s, dc, e) || dc >= missing)
    ensures Forking(s0, Reclaims(s, vs).value, fd, td, size, dc, e, missing)
    ensures RestEmpty(Reclaims(s, vs).value, dc, e)
  {
    ReclaimsKeep(s, vs);
    ReclaimOutside(s, vs, td, Dirs(size));
    var s' := Reclaims(s, vs).value;
    OutsideTrans(s0, s, s', td, Dirs(size));
    forall d: nat, x: nat | x < 1024 && td <= d && (if d < dc then x < CountIn(size, d - td) else d == dc && x < e)
      ensures Given(s0, s', fd, td, d, x)
    {
      assert SameRow(s0, fd, td, d);
      GivenTrans(s0, s, s', fd, td, d, x);
    }
    if dc < missing {
      forall x: nat | e <= x < 1024 ensures Entry(s', dc, x) == Absent {
        assert Entry(s, dc, x) == Absent;
      }
    }
  }

  lemma TableForking(s0: State, s: State, fd: nat, td: nat, size: nat, dc: nat)
    requires Forking(s0, s, fd, td, size, dc, 0, dc) && TakePage(s).Some? && MayFork(s0, fd, td, size)
    requires td <= dc < td + Dirs(size)
    ensures var s' := NewTable(TakePage(s).value, dc, TakenFrame(s));
      && Forking(s0, s', fd, td, size, dc, 0, dc + 1) && HasTable(s', dc) && RestEmpty(s', dc, 0) && s'.held == s.held
  {
    TableViews(s, dc);
    var s' := NewTable(TakePage(s).value, dc, TakenFrame(s));
    OutsideTrans(s0, s, s', td, Dirs(size));
    forall x: nat | x < 1024 ensures Entry(s', dc, x) == Absent {
      assert Entry(s, dc, x) == Absent;
    }
    forall d: nat, x: nat | x < 1024 && td <= d && (if d < dc then x < CountIn(size, d - td) else d == dc && x < 0)
      ensures Given(s0, s', fd, td, d, x)
    {
      assert SameRow(s0, fd, td, d);
      GivenTrans(s0, s, s', fd, td, d, x);
    }
  }

  lemma EntryForking(s0: State, s: State, fd: nat, td: nat, size: nat, dc: nat, e: nat)
    requires Forking(s0, s, fd, td, size, dc, e, dc + 1) && MayFork(s0, fd, td, size) && RestEmpty(s, dc, e)
    requires td <= dc < td + Dirs(size) && e < 1024 && e < CountIn(size, dc - td)
    requires CopyEntry(s, dc - td + fd, dc, e).Some?
    ensures Forking(s0, CopyEntry(s, dc - td + fd, dc, e).value, fd, td, size, dc, e + 1, dc + 1)
    ensures RestEmpty(CopyEntry(s, dc - td + fd, dc, e).value, dc, e + 1)
    ensures CopyEntry(s, dc - td + fd, dc, e).value.dir == s.dir
  {
    var n, f := Dirs(size), dc - td + fd;
    SourceStays(s0, s, fd, td, n, size);
    assert SameRow(s0, fd, td, dc);
    SourceAt(s, fd, n, size, f, e);
    CopyOutside(s, fd, td, n, dc, e);
    var s' := CopyEntry(s, f, dc, e).value;
    OutsideTrans(s0, s, s', td, n);
    KeptTrans(s0, f, s, f, s', dc, e);
    forall d: nat, x: nat | x < 1024 && td <= d && (if d < dc then x < CountIn(size, d - td) else d == dc && x < e + 1)
      ensures Given(s0, s', fd, td, d, x)
    {
      if d < dc || x < e {
        assert SameRow(s0, fd, td, d);
        GivenTrans(s0, s, s', fd, td, d, x);
      }
    }
    forall x: nat | e + 1 <= x < 1024 ensures Entry(s', dc, x) == Absent {
      assert Entry(s, dc, x) == Absent;
    }
  }

  lemma SourceAt(s: State, fd: nat, n: nat, size: nat, d: nat, e: nat)
    requires Source(s, fd, n, size) && fd <= d < fd + n && d < 1024 && e < 1024 && e < CountIn(size, d - fd)
    ensures CopySource(s, d, e)
  {
    if fd < FIRST_VM_DIR {
      assert SourceRow(s, fd, d, size);
      assert LowEntry(s, Entry(s, d, e));
    }
  }

  /** A row without a table in the parent is complete without one in the child. */
  lemma EmptyRowForking(s0: State, s: State, fd: nat, td: nat, size: nat, dc: nat)
    requires Forking(s0, s, fd, td, size, dc, 0, dc) && MayFork(s0, fd, td, size)
    requires td <= dc < td + Dirs(size) && s.dir[dc - td + fd].None?
    ensures Forking(s0, s, fd, td, size, dc + 1, 0, dc + 1)
  {
    var f := dc - td + fd;
    assert SameRow(s0, fd, td, dc);
    SourceStays(s0, s, fd, td, Dirs(size), size);
    assert fd < FIRST_VM_DIR ==> SourceRow(s0, fd, f, size);
    forall x: nat | x < 1024 && x < CountIn(size, dc - td) ensures Given(s0, s, fd, td, dc, x) {
      assert Entry(s, dc, x) == Absent;
      assert Entry(s, f, x) == Absent;
      assert Kept(s, f, s, dc, x);
      KeptTrans(s0, f, s, f, s, dc, x);
    }
  }

  lemma RowForking(s0: State, s: State, fd: nat, td: nat, size: nat, dc: nat, e: nat)
    requires Forking(s0, s, fd, td, size, dc, e, dc + 1) && td <= dc && e == CountIn(size, dc - td)
    ensures Forking(s0, s, fd, td, size, dc + 1, 0, dc + 1)
  {
  }

  /** The parent's row has a table the kernel can read. */
  lemma ParentTable(s0: State, s: State, fd: nat, td: nat, size: nat, dc: nat)
    requires OutsideSame(s0, s, td, Dirs(size)) && Shape(s) && MayFork(s0, fd, td, size) && InRange(dc, td, Dirs(size))
    requires s.dir[dc - td + fd].Some?
    ensures HasTable(s, dc - td + fd)
  {
    var f := dc - td + fd;
    if fd < FIRST_VM_DIR {
      SourceStays(s0, s, fd, td, Dirs(size), size);
      assert SourceRow(s, fd, f, size);
    }
  }

  /** What free_page_tables leaves outside directories td..td+n, entry by entry. */
  ghost predicate Freeing(s0: State, s: State, td: nat, n: nat) {
    && Inv(s) && OutsideSame(s0, s, td, n) && s.image == s0.image && s.held == s0.held && s.usable == s0.usable
    && (forall d: nat, e: nat | User(d, e) && !InRange(d, td, n) ::
          Entry(s, d, e) == Entry(s0, d, e) && View(s, d, e) == View(s0, d, e))
    && (Backed(s0) ==> Backed(s))
  }

  lemma ClearFreeing(s0: State, s: State, td: nat, n: nat, d: nat, e: nat)
    requires Freeing(s0, s, td, n) && InRange(d, td, n) && User(d, e) && HasTable(s, d)
    ensures var s' := Retarget(s, d, e, Absent);
      && Freeing(s0, s', td, n) && s'.dir == s.dir && HasTable(s', d)
      && (forall x: nat :: Entry(s', d, x) == if x == e then Absent else Entry(s, d, x))
  {
    ClearEntryStep(s, d, e);
    RetargetEntries(s, d, e, Absent);
    var s' := Retarget(s, d, e, Absent);
    forall d': nat, x: nat | User(d', x) && !InRange(d', td, n) ensures Kept(s, d', s', d', x) {
      OthersKept(s, s', d, e, d', x);
    }
    OutsideTrans(s0, s, s', td, n);
    if Backed(s) {
      forall d': nat, x: nat | User(d', x) ensures BackedAt(s', d', x) { assert BackedAt(s, d', x); }
    }
  }

  lemma DropFreeing(s0: State, s: State, td: nat, n: nat, d: nat)
    requires Freeing(s0, s, td, n) && InRange(d, td, n) && FIRST_VM_DIR <= d < 1024 && s.dir[d].Some?
    requires RestEmpty(s, d, 0)
    ensures Freeing(s0, DropTable(s, d), td, n)
  {
    forall e: nat | e < 1024 ensures Entry(s, d, e) == Absent {}
    DropTableInv(s, d);
    var s' := DropTable(s, d);
    forall d': nat, x: nat | User(d', x)
      ensures View(s', d', x) == View(s, d', x) && Entry(s', d', x) == Entry(s, d', x) && Kept(s, d', s', d', x)
    {
      assert Entry(s', d', x) == Entry(s, d', x);
    }
    OutsideTrans(s0, s, s', td, n);
    KeptBacked(s, s');
  }

  /** The page of a private memory is the page at (d0, e) of s0; or that was a clean page unlike
      its image, and was lost to it. */
  ghost predicate Holds(v: Runs.Private, d: nat, s0: State, d0: nat, e: nat) {
    Runs.At(v.view, d, e) == View(s0, d0, e) || (!BackedAt(s0, d0, e) && Runs.At(v.view, d, e) == ImageOf(s0, d0, e))
  }

  /** After a fork, over any run of all tasks and the reclaimer, everybody sees what he would
      see if the fork had made a full private copy: the private memories v of that moment hold
      the parent's pages a second time for the child, and nobody's view ever leaves them. */
  lemma ForkIsPrivateCopy(s0: State, s: State, fd: nat, td: nat, size: nat, open: set<(nat, nat)>, v: Runs.Private,
      steps: seq<Runs.Step>)
    requires Inv(s) && OutsideSame(s0, s, td, Dirs(size)) && ChildSees(s0, s, fd, td, size, td + Dirs(size), 0)
    requires Runs.Sees(s, v) && Runs.BackedBut(s, open) && Runs.Run(s, steps).Some? && Runs.AvoidsAll(s, open, steps)
    ensures forall d: nat, e: nat | User(d, e) && InRange(d, td, Dirs(size)) && e < CountIn(size, d - td) ::
      Holds(v, d, s0, d - td + fd, e)
    ensures forall d: nat, e: nat | User(d, e) && !InRange(d, td, Dirs(size)) :: Holds(v, d, s0, d, e)
    ensures Runs.Sees(Runs.Run(s, steps).value, Runs.PrivateRun(v, steps))
  {
    Runs.RunFollowsPrivate(s, open, v, steps);
    forall d: nat, e: nat | User(d, e) && InRange(d, td, Dirs(size)) && e < CountIn(size, d - td)
      ensures Holds(v, d, s0, d - td + fd, e)
    {
      assert Given(s0, s, fd, td, d, e) && Runs.At(v.view, d, e) == View(s, d, e);
    }
    forall d: nat, e: nat | User(d, e) && !InRange(d, td, Dirs(size)) ensures Holds(v, d, s0, d, e) {
      assert Kept(s0, d, s, d, e) && Runs.At(v.view, d, e) == View(s, d, e);
    }
  }

  /** In particular a page of the child that nobody writes for it stays the parent's page of the
      moment of the fork, whatever the parent does to its own. */
  lemma ForkIsolation(s0: State, s: State, fd: nat, td: nat, size: nat, open: set<(nat, nat)>,
      steps: seq<Runs.Step>, d: nat, e: nat)
    requires Inv(s) && Runs.BackedBut(s, open) && ChildSees(s0, s, fd, td, size, td + Dirs(size), 0)
    requires User(d, e) && InRange(d, td, Dirs(size)) && e < CountIn(size, d - td)
    requires Runs.Run(s, steps).Some? && Runs.AvoidsAll(s, open, steps) && Runs.Leaves(steps, d, e)
    ensures View(Runs.Run(s, steps).value, d, e) == View(s, d, e)
    ensures Kept(s0, d - td + fd, s, d, e)
    ensures BackedAt(s0, d - td + fd, e) ==> View(Runs.Run(s, steps).value, d, e) == View(s0, d - td + fd, e)
  {
    Runs.CowIsolation(s, open, steps, d, e);
    assert Given(s0, s, fd, td, d, e);
  }
}
