/** How many frames a fork needs: with that many free it succeeds, and takes no more. */
module PagingNeed {
  import opened Wrappers
  import opened PagingState
  import opened PagingOps
  import opened PagingSteps
  import opened PagingReclaim
  import opened PagingPossible
  import opened PagingFork

  /** The swapped pages among the first n of directory d. */
  function SwappedIn(s: State, d: nat, n: nat): nat {
    if n == 0 then 0 else SwappedIn(s, d, n - 1) + (if Entry(s, d, n - 1).Swapped? then 1 else 0)
  }

  /** What copying the first i directories takes: a frame for each table and each swapped page. */
  function Need(s: State, fd: nat, size: nat, i: nat): nat {
    if i == 0 then 0 else Need(s, fd, size, i - 1) + RowNeed(s, fd, size, i - 1)
  }

  function RowNeed(s: State, fd: nat, size: nat, i: nat): nat {
    if fd + i < 1024 && s.dir[fd + i].Some? then 1 + SwappedIn(s, fd + i, CountIn(size, i)) else 0
  }

  /** As many frames are free as copying `size` bytes from directory fd on takes. */
  predicate Enough(s: State, fd: nat, size: nat) {
    Free(s) >= Need(s, fd, size, Dirs(size))
  }

  /** What the first i directories have taken, and directory i up to entry e. */
  function Spent(s: State, fd: nat, size: nat, i: nat, e: nat, table: bool): nat {
    Need(s, fd, size, i) + if table then 1 + SwappedIn(s, fd + i, e) else 0
  }

  /** Entry x of directory d is yet to be copied when directory i is done up to entry e. */
  predicate Ahead(fd: nat, size: nat, i: nat, e: nat, d: nat, x: nat) {
    fd + i <= d < fd + Dirs(size) && x < CountIn(size, d - fd) && x < 1024 && (d > fd + i || x >= e)
  }

  predicate SameSwapped(s0: State, s: State, d: nat, x: nat) {
    Entry(s, d, x).Swapped? == Entry(s0, d, x).Swapped?
  }

  /** The parent's entries yet to be copied are in memory or swapped as before. */
  ghost predicate ParentLeft(s0: State, s: State, fd: nat, size: nat, i: nat, e: nat) {
    forall d: nat, x: nat | Ahead(fd, size, i, e, d, x) :: SameSwapped(s0, s, d, x)
  }

  /** Where a fork stands that had enough: it has taken what it needs so far. */
  ghost predicate Ample(s0: State, s: State, fd: nat, td: nat, size: nat, dc: nat, e: nat, table: bool) {
    td <= dc && Enough(s0, fd, size) ==>
      && Free(s) + Spent(s0, fd, size, dc - td, e, table) == Free(s0)
      && ParentLeft(s0, s, fd, size, dc - td, e)
  }

  lemma {:induction false} NeedGrows(s: State, fd: nat, size: nat, i: nat, j: nat)
    requires i <= j
    ensures Need(s, fd, size, i) <= Need(s, fd, size, j)
  {
    if i < j { NeedGrows(s, fd, size, i, j - 1); }
  }

  lemma {:induction false} SwappedGrows(s: State, d: nat, m: nat, n: nat)
    requires m <= n
    ensures SwappedIn(s, d, m) <= SwappedIn(s, d, n)
  {
    if m < n { SwappedGrows(s, d, m, n - 1); }
  }

  /** Kernel rows have no swapped pages. */
  lemma LowNotSwapped(s: State, fd: nat, size: nat, d: nat, x: nat)
    requires Source(s, fd, Dirs(size), size) && fd < FIRST_VM_DIR && Ahead(fd, size, 0, 0, d, x)
    ensures !Entry(s, d, x).Swapped?
  {
    assert SourceRow(s, fd, d, size);
    assert LowEntry(s, Entry(s, d, x));
  }

  lemma LowLeft(s0: State, s: State, fd: nat, td: nat, size: nat, i: nat, e: nat)
    requires MayFork(s0, fd, td, size) && OutsideSame(s0, s, td, Dirs(size)) && fd < FIRST_VM_DIR
    ensures ParentLeft(s0, s, fd, size, i, e)
  {
    SourceStays(s0, s, fd, td, Dirs(size), size);
    forall d: nat, x: nat | Ahead(fd, size, i, e, d, x) ensures SameSwapped(s0, s, d, x) {
      LowNotSwapped(s0, fd, size, d, x);
      LowNotSwapped(s, fd, size, d, x);
    }
  }

  /** A present page is counted already, so mapping it again takes no frame. */
  lemma CountedNotFree(s: State, d: nat, e: nat)
    requires Inv(s) && User(d, e) && Entry(s, d, e).Present? && LOWF <= Entry(s, d, e).pfn < TOTALF
    ensures Free(s.(memMap := AddTo(s.memMap, Entry(s, d, e).pfn, 1))) == Free(s)
  {
    var f := Entry(s, d, e).pfn;
    assert GoodPte(s, Entry(s, d, e));
    InRefs(s, AsPage(d, e), f);
    assert |Refs(s, f)| > 0;
    ZerosChange(s.memMap, f - LOWF, s.memMap[f - LOWF] + 1, TOTALF - LOWF);
  }

  /** Copying a present page is two stores and, in main memory, one more use counted. */
  lemma PresentIs(s: State, fd: nat, td: nat, e: nat)
    requires Inv(s) && User(td, e) && fd < 1024 && fd != td && HasTable(s, td) && HasTable(s, fd)
    requires Entry(s, td, e) == Absent && s.image[td] == s.image[fd] && CopySource(s, fd, e) && Entry(s, fd, e).Present?
    ensures var p := Entry(s, fd, e).(rw := false);
      && p.pfn < TOTALF
      && (p.pfn < LOWF ==> CopyEntry(s, fd, td, e) == Some(SetEntry(s, td, e, p)))
      && (p.pfn >= LOWF ==>
            var s1 := SetEntry(s, fd, e, p);
            && HasTable(s1, td)
            && CopyEntry(s, fd, td, e) == Some(SetEntry(s1, td, e, p).(memMap := AddTo(s.memMap, p.pfn, 1))))
  {
    var p := Entry(s, fd, e).(rw := false);
    InheritNothing(s, fd, td, e);
    if fd >= FIRST_VM_DIR { assert GoodPte(s, Entry(s, fd, e)); }
    if p.pfn in s.held { SoleUse(s, p.pfn, AsKernel, AsPage(fd, e)); }
    assert s.held - {p.pfn} == s.held;
    if p.pfn >= LOWF {
      ProtectIsSet(s, fd, e);
      EntryAfterSet(s, fd, e, p, td, e);
    }
  }

  /** Handing over the slot is two stores and one filled frame; the bitmap does not change. */
  lemma HandOverIs(s: State, fd: nat, td: nat, e: nat)
    requires Inv(s) && User(td, e) && User(fd, e) && fd != td && HasTable(s, fd) && HasTable(s, td)
    requires s.image[td] == s.image[fd]
    requires Entry(s, fd, e).Swapped? && Entry(s, td, e) == Absent && TakePage(s).Some?
    ensures Entry(s, fd, e).slot < SWAP_SLOTS && TakenFrame(s) < TOTALF
    ensures var k := Entry(s, fd, e).slot;
      var f := TakenFrame(s);
      var s1 := SetBytes(TakePage(s).value, f, s.swap[k]);
      && HasTable(s1, fd)
      && var s2 := SetEntry(s1, fd, e, Present(f, true, true)).(held := TakePage(s).value.held - {f});
      && HasTable(s2, td)
      && CopyEntry(s, fd, td, e) == Some(SetEntry(s2, td, e, Swapped(k)))
  {
    var k := Entry(s, fd, e).slot;
    assert HoldsSlot(s, fd, e, k);
    FreshPage(s, s.swap[k]);
    UserTable(s, fd);
    UserTable(s, td);
    var f := TakenFrame(s);
    var s1 := SetBytes(TakePage(s).value, f, s.swap[k]);
    var s2 := SetEntry(s1, fd, e, Present(f, true, true)).(held := TakePage(s).value.held - {f});
    InheritNothing(s, fd, td, e);
    SwapInStep(s, fd, e);
    assert SwapIn(s, fd, e) == Some(s2.(bits := s.bits[k := true]));
    assert s.bits[k := true][k := false] == s.bits;
    UserTable(SwapIn(s, fd, e).value, td);
  }

  /** One turn of the copy loop takes a frame if the page is swapped, and none otherwise. */
  lemma EntryTakes(s: State, fd: nat, td: nat, e: nat)
    requires Inv(s) && User(td, e) && fd != td && fd % TASK_DIRS == td % TASK_DIRS && HasTable(s, td) && HasTable(s, fd)
    requires Entry(s, td, e) == Absent && s.image[td] == s.image[fd] && CopySource(s, fd, e)
    requires CopyEntry(s, fd, td, e).Some?
    ensures Free(CopyEntry(s, fd, td, e).value) == Free(s) - if Entry(s, fd, e).Swapped? then 1 else 0
  {
    match Entry(s, fd, e)
    case Absent => InheritNothing(s, fd, td, e);
    case Present(_, _, _) =>
      PresentIs(s, fd, td, e);
      if Entry(s, fd, e).pfn >= LOWF { CountedNotFree(s, fd, e); }
    case Swapped(_) =>
      SwapInIff(s, fd, e);
      InheritNothing(s, fd, td, e);
      HandOverIs(s, fd, td, e);
      FreeTaken(s);
  }

  lemma AmpleStart(s: State, fd: nat, td: nat, size: nat)
    ensures Ample(s, s, fd, td, size, td, 0, false)
  {
    assert forall d: nat, x: nat :: SameSwapped(s, s, d, x);
  }

  /** Steps that leave the parent's later entries alone leave them as they were. */
  lemma LeftOn(s0: State, s: State, s': State, fd: nat, size: nat, i: nat, e: nat, i': nat, e': nat)
    requires ParentLeft(s0, s, fd, size, i, e) && (i < i' || (i == i' && e <= e'))
    requires forall d: nat, x: nat | Ahead(fd, size, i', e', d, x) :: SameSwapped(s, s', d, x)
    ensures ParentLeft(s0, s', fd, size, i', e')
  {
    forall d: nat, x: nat | Ahead(fd, size, i', e', d, x) ensures SameSwapped(s0, s', d, x) {
      assert Ahead(fd, size, i, e, d, x) && SameSwapped(s, s', d, x);
    }
  }

  /** A table for the child's directory dc. */
  lemma AmpleTable(s0: State, s: State, fd: nat, td: nat, size: nat, dc: nat)
    requires Forking(s0, s, fd, td, size, dc, 0, dc) && MayFork(s0, fd, td, size) && InRange(dc, td, Dirs(size))
    requires Ample(s0, s, fd, td, size, dc, 0, false) && Enough(s0, fd, size) && s0.dir[dc - td + fd].Some?
    ensures TakePage(s).Some? && TakenFrame(s) < TOTALF
    ensures Ample(s0, NewTable(TakePage(s).value, dc, TakenFrame(s)), fd, td, size, dc, 0, true)
  {
    NeedGrows(s0, fd, size, dc - td + 1, Dirs(size));
    FreeIff(s);
    FreeTaken(s);
    TableForking(s0, s, fd, td, size, dc);
    var s' := NewTable(TakePage(s).value, dc, TakenFrame(s));
    if fd < FIRST_VM_DIR {
      LowLeft(s0, s', fd, td, size, dc - td, 0);
    } else {
      NewTableStep(s, dc);
      LeftOn(s0, s, s', fd, size, dc - td, 0, dc - td, 0);
    }
  }

  /** There is a frame for a swapped page. */
  lemma AmpleRoom(s0: State, s: State, fd: nat, td: nat, size: nat, dc: nat, e: nat)
    requires InRange(dc, td, Dirs(size)) && e < 1024 && e < CountIn(size, dc - td) && dc - td + fd < 1024
    requires Ample(s0, s, fd, td, size, dc, e, true) && Enough(s0, fd, size) && s0.dir[dc - td + fd].Some?
    ensures Entry(s, dc - td + fd, e).Swapped? == Entry(s0, dc - td + fd, e).Swapped?
    ensures Entry(s, dc - td + fd, e).Swapped? ==> TakePage(s).Some?
  {
    var i, f := dc - td, dc - td + fd;
    assert Ahead(fd, size, i, e, f, e) && SameSwapped(s0, s, f, e);
    NeedGrows(s0, fd, size, i + 1, Dirs(size));
    SwappedGrows(s0, f, e + 1, CountIn(size, i));
    FreeIff(s);
  }

  lemma EntryOutside(s0: State, s: State, fd: nat, td: nat, size: nat, dc: nat, e: nat)
    requires Forking(s0, s, fd, td, size, dc, e, dc + 1) && MayFork(s0, fd, td, size) && RestEmpty(s, dc, e)
    requires InRange(dc, td, Dirs(size)) && e < 1024 && e < CountIn(size, dc - td)
    requires CopyEntry(s, dc - td + fd, dc, e).Some?
    ensures OutsideSame(s0, CopyEntry(s, dc - td + fd, dc, e).value, td, Dirs(size))
  {
    EntryForking(s0, s, fd, td, size, dc, e);
  }

  /** Copying entry e of directory f to dc leaves the entries ahead alone. */
  lemma EntriesAhead(s: State, fd: nat, size: nat, f: nat, dc: nat, e: nat, next: nat)
    requires next == e + 1 && Inv(s) && User(dc, e) && CopySource(s, f, e) && f != dc && CopyEntry(s, f, dc, e).Some?
    requires f % TASK_DIRS == dc % TASK_DIRS && FIRST_VM_DIR <= fd <= f && fd + Dirs(size) <= 1024
    requires dc < fd || fd + Dirs(size) <= dc
    ensures forall d: nat, x: nat | Ahead(fd, size, f - fd, next, d, x) ::
      SameSwapped(s, CopyEntry(s, f, dc, e).value, d, x)
  {
    CopyEntryStep(s, f, dc, e);
    forall d: nat, x: nat | Ahead(fd, size, f - fd, next, d, x)
      ensures SameSwapped(s, CopyEntry(s, f, dc, e).value, d, x)
    {
      assert x != e || (d != f && d != dc);
    }
  }

  /** One turn of the inner loop leaves the entries ahead alone. */
  lemma LeftAfterEntry(s0: State, s: State, fd: nat, td: nat, size: nat, dc: nat, e: nat)
    requires Forking(s0, s, fd, td, size, dc, e, dc + 1) && MayFork(s0, fd, td, size) && RestEmpty(s, dc, e)
    requires InRange(dc, td, Dirs(size)) && e < 1024 && e < CountIn(size, dc - td)
    requires CopySource(s, dc - td + fd, e) && CopyEntry(s, dc - td + fd, dc, e).Some?
    requires ParentLeft(s0, s, fd, size, dc - td, e)
    ensures ParentLeft(s0, CopyEntry(s, dc - td + fd, dc, e).value, fd, size, dc - td, e + 1)
  {
    if fd < FIRST_VM_DIR {
      EntryOutside(s0, s, fd, td, size, dc, e);
      LowLeft(s0, CopyEntry(s, dc - td + fd, dc, e).value, fd, td, size, dc - td, e + 1);
    } else {
      SamePlaceModulo(fd, td, dc);
      var f := dc - td + fd;
      EntriesAhead(s, fd, size, f, dc, e, e + 1);
      LeftOn(s0, s, CopyEntry(s, f, dc, e).value, fd, size, f - fd, e, f - fd, e + 1);
    }
  }

  lemma AmpleStep(s0: State, s: State, s': State, fd: nat, td: nat, size: nat, dc: nat, e: nat)
    requires Ample(s0, s, fd, td, size, dc, e, true) && Enough(s0, fd, size) && td <= dc
    requires Entry(s, dc - td + fd, e).Swapped? == Entry(s0, dc - td + fd, e).Swapped?
    requires Free(s') == Free(s) - if Entry(s, dc - td + fd, e).Swapped? then 1 else 0
    requires ParentLeft(s0, s', fd, size, dc - td, e + 1)
    ensures Ample(s0, s', fd, td, size, dc, e + 1, true)
  {
  }

  lemma AmpleEntry(s0: State, s: State, fd: nat, td: nat, size: nat, dc: nat, e: nat)
    requires Forking(s0, s, fd, td, size, dc, e, dc + 1) && MayFork(s0, fd, td, size) && RestEmpty(s, dc, e)
    requires InRange(dc, td, Dirs(size)) && e < 1024 && e < CountIn(size, dc - td)
    requires HasTable(s, dc) && HasTable(s, dc - td + fd) && CopySource(s, dc - td + fd, e) && User(dc, e)
    requires Entry(s, dc, e) == Absent && s.image[dc] == s.image[dc - td + fd]
    requires Ample(s0, s, fd, td, size, dc, e, true) && CopyEntry(s, dc - td + fd, dc, e).Some?
    requires s0.dir[dc - td + fd].Some? && Enough(s0, fd, size)
    ensures Ample(s0, CopyEntry(s, dc - td + fd, dc, e).value, fd, td, size, dc, e + 1, true)
  {
    var f := dc - td + fd;
    AmpleRoom(s0, s, fd, td, size, dc, e);
    LeftAfterEntry(s0, s, fd, td, size, dc, e);
    SamePlaceModulo(fd, td, dc);
    EntryTakes(s, f, dc, e);
    AmpleStep(s0, s, CopyEntry(s, f, dc, e).value, fd, td, size, dc, e);
  }

  /** The turn with its reclaims, of which there are none if the fork had enough. */
  lemma TurnAmple(s0: State, s: State, vs: seq<(nat, nat)>, s': State, ok: bool, fd: nat, td: nat, size: nat,
      dc: nat, e: nat)
    requires Forking(s0, s, fd, td, size, dc, e, dc + 1) && MayFork(s0, fd, td, size) && RestEmpty(s, dc, e)
    requires InRange(dc, td, Dirs(size)) && e < 1024 && e < CountIn(size, dc - td)
    requires HasTable(s, dc) && HasTable(s, dc - td + fd) && CopySource(s, dc - td + fd, e) && User(dc, e)
    requires Entry(s, dc, e) == Absent && s.image[dc] == s.image[dc - td + fd]
    requires Ample(s0, s, fd, td, size, dc, e, true) && Reclaims(s, vs).Some?
    requires TakePage(s).Some? || !Entry(s, dc - td + fd, e).Swapped? ==> ok && vs == []
    requires ok ==> CopyEntry(Reclaims(s, vs).value, dc - td + fd, dc, e) == Some(s')
    ensures Enough(s0, fd, size) ==> ok
    ensures ok ==> Ample(s0, s', fd, td, size, dc, e + 1, true)
  {
    if Enough(s0, fd, size) {
      assert s0.dir[dc - td + fd] == s.dir[dc - td + fd];
      AmpleRoom(s0, s, fd, td, size, dc, e);
      AmpleEntry(s0, s, fd, td, size, dc, e);
    }
  }

  /** The same for a table. */
  lemma RowAmple(s0: State, s: State, vs: seq<(nat, nat)>, s': State, ok: bool, fd: nat, td: nat, size: nat, dc: nat)
    requires Forking(s0, s, fd, td, size, dc, 0, dc) && MayFork(s0, fd, td, size) && InRange(dc, td, Dirs(size))
    requires Ample(s0, s, fd, td, size, dc, 0, false) && s0.dir[dc - td + fd].Some? && Reclaims(s, vs).Some?
    requires TakePage(s).Some? ==> ok && vs == []
    requires ok ==> var s1 := Reclaims(s, vs).value;
      TakePage(s1).Some? && s' == NewTable(TakePage(s1).value, dc, TakenFrame(s1))
    ensures Enough(s0, fd, size) ==> ok
    ensures ok ==> Ample(s0, s', fd, td, size, dc, 0, true)
  {
    if Enough(s0, fd, size) { AmpleTable(s0, s, fd, td, size, dc); }
  }

  lemma SamePlaceModulo(fd: nat, td: nat, dc: nat)
    requires fd % TASK_DIRS == td % TASK_DIRS && td <= dc
    ensures (dc - td + fd) % TASK_DIRS == dc % TASK_DIRS
  {
  }

  /** The end of a directory that has a table, and one that has none. */
  lemma AmpleRow(s0: State, s: State, fd: nat, td: nat, size: nat, dc: nat, e: nat, table: bool)
    requires Ample(s0, s, fd, td, size, dc, e, table) && InRange(dc, td, Dirs(size)) && dc - td + fd < 1024
    requires table == s0.dir[dc - td + fd].Some? && (table ==> e == CountIn(size, dc - td))
    ensures Ample(s0, s, fd, td, size, dc + 1, 0, false)
  {
    if Enough(s0, fd, size) {
      assert forall d: nat, x: nat :: SameSwapped(s, s, d, x);
      LeftOn(s0, s, s, fd, size, dc - td, e, dc - td + 1, 0);
    }
  }

  lemma ForkedUpTo(s0: State, s: State, fd: nat, td: nat, size: nat, dc: nat, dirs: nat)
    requires Forking(s0, s, fd, td, size, dc, 0, dc) && Ample(s0, s, fd, td, size, dc, 0, false) && dc == td + dirs
    ensures Forking(s0, s, fd, td, size, td + dirs, 0, td + dirs) && Ample(s0, s, fd, td, size, td + dirs, 0, false)
  {
  }

  /** At the end it has taken what it needs. */
  lemma AmpleEnd(s0: State, s: State, fd: nat, td: nat, size: nat)
    requires Ample(s0, s, fd, td, size, td + Dirs(size), 0, false)
    ensures Enough(s0, fd, size) ==> Free(s) + Need(s0, fd, size, Dirs(size)) == Free(s0)
  {
  }
}
