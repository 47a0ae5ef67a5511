/** Memories small enough to write down in which reclaim picks the page its caller is working on,
    or a page made writable and never written is lost or given away. */
module PagingWitness {
  import opened Wrappers
  import opened PagingState
  import opened PagingOps
  import opened PagingSteps
  import opened PagingReclaim
  import Runs = PagingRuns
  import Clock = PagingClock
  import Kernel = PagingKernel

  const FIRST: nat := LOWF         // the table of task 1
  const SECOND: nat := LOWF + 1    // the table of task 2
  const COMMON: nat := LOWF + 2    // the first page of both
  const THIRD: nat := LOWF + 3     // the table of task 3, which is empty

  const TASK1: nat := 16
  const TASK2: nat := 32
  const TASK3: nat := 48
  const TASK4: nat := 64

  function CommonPte(dirty: bool): Pte { Present(COMMON, false, dirty) }

  function OneEntry(p: Pte): Table { seq(1024, e => if e == 0 then p else Absent) }

  function Dir(): PageDir {
    seq(1024, d => if d == TASK1 then Some(FIRST) else if d == TASK2 then Some(SECOND) else
      if d == TASK3 then Some(THIRD) else None)
  }

  function FrameAt(dirty: bool, page: Page, f: int): Frame {
    if f == FIRST || f == SECOND then Ptes(OneEntry(CommonPte(dirty)))
    else if f == THIRD then Ptes(EmptyTable())
    else Bytes(if f == COMMON then page else ZeroPage())
  }

  function Mem(dirty: bool, page: Page): Memory {
    seq(TOTALF, f => FrameAt(dirty, page, f))
  }

  function Counts(spare: bool): MemMap {
    seq(TOTALF - LOWF, j => if j == 2 then 2 else if j <= 3 then 1 else if j == 4 && spare then 0 else USED)
  }

  /** Two tasks after a fork share one page; memory has these four frames, and perhaps one more
      that is free. Executables are all zeros. */
  function Small(dirty: bool, page: Page, spare: bool): State {
    State(Dir(), Mem(dirty, page), Counts(spare), {}, LOWF, if spare then LOWF + 5 else LOWF + 4,
      seq(SWAP_SLOTS, _ => false), seq<Page>(SWAP_SLOTS, _ => ZeroPage()), {}, seq<ImageRow>(1024, _ => NoImage()))
  }

  lemma SmallEntries(dirty: bool, page: Page, spare: bool)
    ensures forall d: nat, e: nat | e < 1024 ::
      Entry(Small(dirty, page, spare), d, e) == if (d == TASK1 || d == TASK2) && e == 0 then CommonPte(dirty) else
        Absent
    ensures forall d: nat :: HasTable(Small(dirty, page, spare), d) <==> d == TASK1 || d == TASK2 || d == TASK3
    ensures forall d: nat, e: nat :: ImageOf(Small(dirty, page, spare), d, e) == ZeroPage()
  {
    var s := Small(dirty, page, spare);
    forall d: nat, e: nat | e < 1024
      ensures Entry(s, d, e) == if (d == TASK1 || d == TASK2) && e == 0 then CommonPte(dirty) else Absent
    {
      if HasTable(s, d) { assert s.mem[s.dir[d].value] == FrameAt(dirty, page, s.dir[d].value); }
    }
    forall d: nat, e: nat ensures ImageOf(s, d, e) == ZeroPage() {
      if d < 1024 && e < 1024 {
        assert s.image[d] == NoImage();
        assert s.image[d][e] == ZeroPage();
      }
    }
  }

  lemma SmallUses(dirty: bool, page: Page, spare: bool, u: Use, f: nat)
    ensures Uses(Small(dirty, page, spare), u, f) <==>
      (f == FIRST && u == AsTable(TASK1)) || (f == SECOND && u == AsTable(TASK2)) || (f == THIRD &&
        u == AsTable(TASK3)) ||
      (f == COMMON && (u == AsPage(TASK1, 0) || u == AsPage(TASK2, 0)))
  {
    SmallEntries(dirty, page, spare);
  }

  lemma SmallRefs(dirty: bool, page: Page, spare: bool, f: nat)
    ensures |Refs(Small(dirty, page, spare), f)| ==
      if f == COMMON then 2 else if f == FIRST || f == SECOND || f == THIRD then 1 else 0
  {
    var r := Refs(Small(dirty, page, spare), f);
    forall u: Use ensures u in r <==>
      (f == FIRST && u == AsTable(TASK1)) || (f == SECOND && u == AsTable(TASK2)) || (f == THIRD &&
        u == AsTable(TASK3)) ||
      (f == COMMON && (u == AsPage(TASK1, 0) || u == AsPage(TASK2, 0)))
    {
      SmallUses(dirty, page, spare, u, f);
      InRefs(Small(dirty, page, spare), u, f);
    }
    assert r == if f == FIRST then {AsTable(TASK1)} else if f == SECOND then {AsTable(TASK2)} else
      if f == THIRD then {AsTable(TASK3)}
                else if f == COMMON then {AsPage(TASK1, 0), AsPage(TASK2, 0)} else {};
  }

  lemma SmallInv(dirty: bool, page: Page, spare: bool)
    ensures Inv(Small(dirty, page, spare))
    ensures dirty || page == ZeroPage() ==> Backed(Small(dirty, page, spare))
  {
    var s := Small(dirty, page, spare);
    SmallEntries(dirty, page, spare);
    forall f: nat | LOWF <= f < TOTALF ensures Count(s, f) == if Managed(s, f) then |Refs(s, f)| else USED {
      SmallRefs(dirty, page, spare, f);
    }
    forall f: nat, u: Use, v: Use | LOWF <= f && Uses(s, u, f) && Uses(s, v, f) && u != v ensures Compatible(s, u, v) {
      SmallUses(dirty, page, spare, u, f);
      SmallUses(dirty, page, spare, v, f);
    }
  }

  /** No frame is free, and two tasks share a clean page with nobody else. */
  ghost predicate Tight(s: State, d1: nat, d2: nat, e: nat) {
    && Inv(s) && User(d1, e) && User(d2, e) && d1 != d2 && TakePage(s).None?
    && IsClean(Entry(s, d1, e)) && IsClean(Entry(s, d2, e)) && Entry(s, d1, e).pfn == Entry(s, d2, e).pfn
    && LOWF <= Entry(s, d1, e).pfn < TOTALF && Count(s, Entry(s, d1, e).pfn) == 2
  }

  lemma DropOne(s: State, d: nat, e: nat, k: nat)
    requires Inv(s) && User(d, e) && IsClean(Entry(s, d, e)) && LOWF <= Entry(s, d, e).pfn < TOTALF
    requires Count(s, Entry(s, d, e).pfn) == k + 1
    ensures Evict(s, d, e).Some?
    ensures Evict(s, d, e).value.memMap == s.memMap[Entry(s, d, e).pfn - LOWF := k]
    ensures TakePage(s).None? && k > 0 ==> TakePage(Evict(s, d, e).value).None?
    ensures TakePage(s).None? && k == 0 ==>
      TakePage(Evict(s, d, e).value).Some? && TakenFrame(Evict(s, d, e).value) == Entry(s, d, e).pfn
  {
    var f := Entry(s, d, e).pfn;
    var m := s.memMap[f - LOWF := k];
    assert m[f - LOWF] == k && forall j | 0 <= j < TOTALF - LOWF && j != f - LOWF :: m[j] == s.memMap[j];
  }

  /** Reclaim drops the page of both tasks, and get_free_page finds its frame. */
  lemma BothReclaimed(s: State, d1: nat, d2: nat, e: nat)
    requires Tight(s, d1, d2, e)
    ensures Reclaims(s, [(d1, e), (d2, e)]).Some?
    ensures TakePage(Reclaims(s, [(d1, e), (d2, e)]).value).Some?
  {
    DropOne(s, d1, e, 1);
    EvictStep(s, d1, e);
    var s1 := Evict(s, d1, e).value;
    DropOne(s1, d2, e, 0);
    var vs: seq<(nat, nat)> := [(d1, e), (d2, e)];
    assert vs[1..] == [(d2, e)] && |vs[1..][1..]| == 0;
    assert Reclaims(s1, vs[1..]) == Evict(s1, d2, e);
  }

  lemma CopyOverPossible(s: State, d: nat, e: nat, was: nat, f: nat)
    requires Inv(s) && User(d, e) && HasTable(s, d) && was < TOTALF && s.mem[was].Bytes? && f in s.held && f < TOTALF
    ensures CopyOver(s, d, e, was, f).Some?
  {
    if s.dir[d] == Some(f) { HeldUse(s, f, AsTable(d)); }
  }

  lemma TableStays(s: State, s': State, d: nat)
    requires Shape(s) && Shape(s') && FIRST_VM_DIR <= d < 1024 && s'.dir[d] == s.dir[d]
    ensures HasTable(s', d) == HasTable(s, d)
  {
  }

  /** un_wp_page goes through if reclaim finds a frame. */
  lemma UnWpPossible(s: State, d: nat, e: nat, vs: seq<(nat, nat)>)
    requires Inv(s) && User(d, e) && HasTable(s, d) && Entry(s, d, e).Present? && Entry(s, d, e).pfn < TOTALF
    requires Entry(s, d, e).pfn >= LOWF ==> Count(s, Entry(s, d, e).pfn) != 1
    requires Reclaims(s, vs).Some? && TakePage(Reclaims(s, vs).value).Some?
    ensures UnWpPage(s, d, e, vs).Some?
  {
    assert GoodPte(s, Entry(s, d, e));
    ReclaimsKeep(s, vs);
    var s1 := Reclaims(s, vs).value;
    TakePageInv(s1);
    TableStays(s, s1, d);
    CopyOverPossible(TakePage(s1).value, d, e, Entry(s, d, e).pfn, TakenFrame(s1));
  }

  /** So un_wp_page can hit its own entry ... */
  lemma UnWpCanHit(s: State, d1: nat, d2: nat, e: nat)
    requires Tight(s, d1, d2, e)
    ensures UnWpPage(s, d1, e, [(d1, e), (d2, e)]).Some? && !Inv(UnWpPage(s, d1, e, [(d1, e), (d2, e)]).value)
  {
    var vs: seq<(nat, nat)> := [(d1, e), (d2, e)];
    BothReclaimed(s, d1, d2, e);
    UnWpPossible(s, d1, e, vs);
    assert (d1, e) == vs[0];
    UnWpExactIff(s, d1, e, vs);
  }

  lemma ShareWordsPossible(s: State, fd: nat, d: nat, e: nat, phys: nat)
    requires Shape(s) && Exclusive(s) && User(fd, e) && User(d, e) && HasTable(s, fd) && HasTable(s, d)
    requires Entry(s, d, e) == Absent
    ensures ShareWords(s, fd, d, e, phys).Some?
  {
    EntryAfterSet(s, fd, e, Writable(Entry(s, fd, e), false), d, e);
  }

  /** ... and try_to_share its source, if the task that asks has no page table there. */
  lemma ShareCanHit(s: State, d1: nat, d2: nat, d: nat, e: nat)
    requires Tight(s, d1, d2, e) && User(d, e) && s.dir[d].None? && d % TASK_DIRS == d1 % TASK_DIRS
    ensures TryToShare(s, d1, d, e, [(d1, e), (d2, e)]).Some? && !Inv(TryToShare(s, d1, d, e, [(d1, e), (d2, e)]).value)
  {
    var vs: seq<(nat, nat)> := [(d1, e), (d2, e)];
    BothReclaimed(s, d1, d2, e);
    SharePossible(s, d1, d, e, vs);
    assert (d1, e) == vs[0];
    ShareExactIff(s, d1, d, e, vs);
  }

  lemma SharePossible(s: State, fd: nat, d: nat, e: nat, vs: seq<(nat, nat)>)
    requires Inv(s) && User(fd, e) && User(d, e) && s.dir[d].None? && HasTable(s, fd)
    requires IsClean(Entry(s, fd, e)) && LOWF <= Entry(s, fd, e).pfn < TOTALF
    requires Reclaims(s, vs).Some? && TakePage(Reclaims(s, vs).value).Some?
    ensures TryToShare(s, fd, d, e, vs).Some?
  {
    ReclaimsKeep(s, vs);
    var s1 := Reclaims(s, vs).value;
    NewTableStep(s1, d);
    var s3 := NewTable(TakePage(s1).value, d, TakenFrame(s1));
    assert fd != d;
    TableStays(s, s3, fd);
    assert Entry(s3, d, e) == Absent;
    ShareWordsPossible(s3, fd, d, e, Entry(s, fd, e).pfn);
  }

  /** There are such memories. */
  lemma TightExists()
    ensures var s := Small(false, ZeroPage(), false);
      Tight(s, TASK1, TASK2, 0) && Backed(s) && s.dir[TASK4].None? && TASK4 % TASK_DIRS == TASK1 % TASK_DIRS
  {
    SmallInv(false, ZeroPage(), false);
    SmallEntries(false, ZeroPage(), false);
  }

  function Written(): Page { ZeroPage()[0 := 1] }

  /** A dirty page that cannot be made writable without a copy, unlike its image, with a frame free
      for the copy. */
  ghost predicate Forked(s: State, d: nat, e: nat) {
    && Inv(s) && Backed(s) && User(d, e) && Runs.CopiesDirty(s, d, e, true) && HasTable(s, d)
    && View(s, d, e) != ImageOf(s, d, e) && TakePage(s).Some?
    && (LOWF <= Entry(s, d, e).pfn < TOTALF ==> Count(s, Entry(s, d, e).pfn) != 1)
  }

  lemma CopyPossible(s: State, d: nat, e: nat)
    requires Inv(s) && User(d, e) && HasTable(s, d) && Entry(s, d, e).Present? && TakePage(s).Some?
    ensures Unshare(s, d, e, true).Some?
  {
    assert GoodPte(s, Entry(s, d, e));
    var page := s.mem[Entry(s, d, e).pfn].page;
    FreshPage(s, page);
    TableStays(s, SetBytes(TakePage(s).value, TakenFrame(s), page), d);
  }

  lemma VerifyIs(s: State, d: nat, e: nat)
    requires User(d, e) && Entry(s, d, e).Present? && !Entry(s, d, e).rw
    ensures Runs.Exec(s, Runs.Verify(d, e, true)) == Unshare(s, d, e, true)
  {
  }

  lemma ShareIs(s: State, fd: nat, d: nat, e: nat)
    requires User(fd, e) && User(d, e) && fd % TASK_DIRS == d % TASK_DIRS && IsClean(Entry(s, fd, e))
    requires Entry(s, fd, e).pfn >= LOWF && ImageOf(s, fd, e) == ImageOf(s, d, e)
    ensures Runs.Exec(s, Runs.Share(fd, d, e)) == MapBoth(s, fd, d, e)
  {
  }

  lemma VerifiedCopy(s: State, d: nat, e: nat)
    requires Forked(s, d, e)
    ensures Unshare(s, d, e, true).Some? && Runs.Exec(s, Runs.Verify(d, e, true)) == Unshare(s, d, e, true)
    ensures var s1 := Unshare(s, d, e, true).value;
      && Inv(s1) && View(s1, d, e) == View(s, d, e) && !BackedAt(s1, d, e) && s1.image == s.image
      && Entry(s1, d, e) == Present(TakenFrame(s), true, false) && LOWF <= TakenFrame(s) < TOTALF && HasTable(s1, d)
  {
    CopyPossible(s, d, e);
    VerifyIs(s, d, e);
    UnshareStep(s, d, e, true);
    CopyAtRisk(s, d, e);
    UnshareCopies(s, d, e);
  }

  lemma TwoSteps(s: State, a: Runs.Step, b: Runs.Step)
    requires Runs.Exec(s, a).Some?
    ensures Runs.Run(s, [a, b]) == Runs.Exec(Runs.Exec(s, a).value, b)
  {
    assert [a, b][1..] == [b] && |[b][1..]| == 0;
    assert Runs.Run(Runs.Exec(s, a).value, [b]) == Runs.Exec(Runs.Exec(s, a).value, b);
  }

  /** Verified for writing and not written, it is lost to reclaim: the task finds the page of its
      executable again instead of what it had written before. */
  lemma VerifiedPageLost(s: State, d: nat, e: nat)
    requires Forked(s, d, e)
    ensures Runs.Run(s, [Runs.Verify(d, e, true), Runs.Reclaim(d, e)]).Some?
    ensures View(Runs.Run(s, [Runs.Verify(d, e, true), Runs.Reclaim(d, e)]).value, d, e) ==
      ImageOf(s, d, e) != View(s, d, e)
  {
    VerifiedCopy(s, d, e);
    CopyAtRisk(s, d, e);
    TwoSteps(s, Runs.Verify(d, e, true), Runs.Reclaim(d, e));
  }

  /** Or another task that runs the same program is given it as the program's page. */
  lemma VerifiedPageLeaks(s: State, d: nat, d': nat, e: nat)
    requires Forked(s, d, e) && User(d', e) && d' != d && d' % TASK_DIRS == d % TASK_DIRS && HasTable(s, d')
    requires Entry(s, d', e) == Absent && ImageOf(s, d', e) == ImageOf(s, d, e)
    ensures Runs.Run(s, [Runs.Verify(d, e, true), Runs.Share(d, d', e)]).Some?
    ensures View(Runs.Run(s, [Runs.Verify(d, e, true), Runs.Share(d, d', e)]).value, d', e) ==
      View(s, d, e) != View(s, d', e)
  {
    VerifiedCopy(s, d, e);
    var s1 := Unshare(s, d, e, true).value;
    UnshareElsewhere(s, d, e, d', e);
    BothPossible(s1, d, d', e);
    ShareIs(s1, d, d', e);
    Runs.ShareSound(s1, d, d', e);
    TwoSteps(s, Runs.Verify(d, e, true), Runs.Share(d, d', e));
  }

  lemma BothPossible(s: State, fd: nat, d: nat, e: nat)
    requires Inv(s) && User(fd, e) && User(d, e) && fd != d && HasTable(s, fd) && HasTable(s, d)
    requires Entry(s, fd, e).Present? && Entry(s, fd, e).pfn >= LOWF && Entry(s, d, e) == Absent
    ensures MapBoth(s, fd, d, e).Some?
  {
    ProtectStep(s, fd, e);
  }

  lemma UnshareElsewhere(s: State, d: nat, e: nat, d': nat, e': nat)
    requires Inv(s) && User(d, e) && User(d', e') && d' != d && Unshare(s, d, e, true).Some?
    ensures Entry(Unshare(s, d, e, true).value, d', e') == Entry(s, d', e')
    ensures HasTable(Unshare(s, d, e, true).value, d') == HasTable(s, d')
  {
    assert GoodPte(s, Entry(s, d, e));
    FreshPage(s, s.mem[Entry(s, d, e).pfn].page);
    var s2 := SetBytes(TakePage(s).value, TakenFrame(s), s.mem[Entry(s, d, e).pfn].page);
    RetargetEntries(s2, d, e, Present(TakenFrame(s), true, false));
  }

  lemma ForkedExists()
    ensures var s := Small(true, Written(), true);
      && Forked(s, TASK1, 0) && HasTable(s, TASK3) && Entry(s, TASK3, 0) == Absent
      && ImageOf(s, TASK3, 0) == ImageOf(s, TASK1, 0) && TASK3 % TASK_DIRS == TASK1 % TASK_DIRS
  {
    var s := Small(true, Written(), true);
    SmallInv(true, Written(), true);
    SmallEntries(true, Written(), true);
    assert Written()[0] == 1 && ZeroPage()[0] == 0;
    assert s.memMap[4] == 0;
  }

  lemma ThreeSteps(s: State, a: Runs.Step, b: Runs.Step, c: Runs.Step)
    requires Runs.Run(s, [a, b]).Some?
    ensures Runs.Run(s, [a, b, c]) == Runs.Exec(Runs.Run(s, [a, b]).value, c)
  {
    var s1 := Runs.Exec(s, a).value;
    assert [a, b][1..] == [b] && |[b][1..]| == 0;
    assert [a, b, c][1..] == [b, c];
    assert Runs.Run(s1, [b]) == Runs.Exec(s1, b);
    TwoSteps(s1, b, c);
  }

  /** A task reads from a file into a page that it has not touched yet. write_verify finds no page;
      the kernel's store faults and maps the page of another task that runs the same program, read
      only; and the store goes through: the other task finds the byte in its own memory. */
  lemma WrittenThroughShare(s: State, fd: nat, d: nat, e: nat, copy: bool, i: nat, b: nat)
    requires Inv(s) && Runs.Exec(s, Runs.Share(fd, d, e)).Some? && i < 4096 && View(s, fd, e)[i] != b
    ensures var steps := [Runs.Verify(d, e, copy), Runs.Share(fd, d, e), Runs.KernelStore(d, e, i, b)];
      && Runs.Run(s, steps).Some? && Runs.Leaves(steps, fd, e)
      && View(Runs.Run(s, steps).value, fd, e) == View(s, fd, e)[i := b] != View(s, fd, e)
  {
    var verify, share := Runs.Verify(d, e, copy), Runs.Share(fd, d, e);
    ShareNeeds(s, fd, d, e);
    VerifyAbsent(s, d, e, copy);
    TwoSteps(s, verify, share);
    ShareThenStore(s, fd, d, e, i, b);
    ThreeSteps(s, verify, share, Runs.KernelStore(d, e, i, b));
  }

  lemma VerifyAbsent(s: State, d: nat, e: nat, copy: bool)
    requires User(d, e) && Entry(s, d, e) == Absent
    ensures Runs.Exec(s, Runs.Verify(d, e, copy)) == Some(s)
  {
  }

  lemma ShareNeeds(s: State, fd: nat, d: nat, e: nat)
    requires Runs.Exec(s, Runs.Share(fd, d, e)).Some?
    ensures User(fd, e) && User(d, e) && fd != d && fd % TASK_DIRS == d % TASK_DIRS && Entry(s, d, e) == Absent
    ensures Entry(s, fd, e).Present? && LOWF <= Entry(s, fd, e).pfn
    ensures MapBoth(s, fd, d, e) == Runs.Exec(s, Runs.Share(fd, d, e))
  {
  }

  /** The kernel's store at (d, e) is seen at (d', e), which maps the same frame. */
  lemma StoreSeen(s: State, d: nat, d': nat, e: nat, i: nat, b: nat)
    requires Inv(s) && User(d, e) && User(d', e) && Entry(s, d, e).Present? && Maps(Entry(s, d', e), Entry(s, d, e).pfn)
    requires i < 4096
    ensures Runs.Exec(s, Runs.KernelStore(d, e, i, b)).Some?
    ensures View(Runs.Exec(s, Runs.KernelStore(d, e, i, b)).value, d', e) == View(s, d, e)[i := b]
  {
    Kernel.StorePossible(s, d, e, i, b);
    StoreIs(s, d, e, i, b);
    var s' := KernelStore(s, d, e, i, b).value;
    StoreView(s, s', d, e, i, b, d', e);
  }

  lemma StoreIs(s: State, d: nat, e: nat, i: nat, b: nat)
    requires User(d, e)
    ensures Runs.Exec(s, Runs.KernelStore(d, e, i, b)) == KernelStore(s, d, e, i, b)
  {
  }

  lemma StoreView(s: State, s': State, d: nat, e: nat, i: nat, b: nat, d': nat, e': nat)
    requires Inv(s) && User(d, e) && User(d', e') && KernelStore(s, d, e, i, b) == Some(s') && i < 4096
    ensures View(s', d', e') ==
      if Maps(Entry(s, d', e'), Entry(s, d, e).pfn) then View(s, d, e)[i := b] else View(s, d', e')
  {
    KernelStoreStep(s, d, e, i, b);
  }

  lemma ShareThenStore(s: State, fd: nat, d: nat, e: nat, i: nat, b: nat)
    requires Inv(s) && Runs.Exec(s, Runs.Share(fd, d, e)).Some? && i < 4096
    ensures var s1 := Runs.Exec(s, Runs.Share(fd, d, e)).value;
      && Inv(s1) && View(s1, d, e) == View(s, fd, e) && User(d, e) && User(fd, e)
      && Runs.Exec(s1, Runs.KernelStore(d, e, i, b)).Some? && Runs.Exec(s1, Runs.KernelStore(fd, e, i, b)).Some?
      && View(Runs.Exec(s1, Runs.KernelStore(d, e, i, b)).value, fd, e) == View(s, fd, e)[i := b]
      && View(Runs.Exec(s1, Runs.KernelStore(fd, e, i, b)).value, d, e) == View(s, fd, e)[i := b]
  {
    ShareNeeds(s, fd, d, e);
    MapBothStep(s, fd, d, e);
    var s1 := MapBoth(s, fd, d, e).value;
    assert View(s1, fd, e) == View(s, fd, e);
    StoreSeen(s1, d, fd, e, i, b);
    StoreSeen(s1, fd, d, e, i, b);
  }

  /** Or the page was there and made writable, and while the reader sleeps for the disk another
      task takes a share in it: that one finds the byte in its memory. */
  lemma WrittenAfterShare(s: State, d: nat, d': nat, e: nat, copy: bool, i: nat, b: nat)
    requires Inv(s) && Runs.Run(s, [Runs.Verify(d, e, copy), Runs.Share(d, d', e)]).Some? && i < 4096
    requires View(s, d, e)[i] != b
    ensures var two := [Runs.Verify(d, e, copy), Runs.Share(d, d', e)];
      var steps := [Runs.Verify(d, e, copy), Runs.Share(d, d', e), Runs.KernelStore(d, e, i, b)];
      && Runs.Run(s, steps).Some? && Runs.Leaves(steps, d', e)
      && View(Runs.Run(s, steps).value, d', e) == View(s, d, e)[i := b] != View(Runs.Run(s, two).value, d', e)
  {
    var verify, share := Runs.Verify(d, e, copy), Runs.Share(d, d', e);
    Runs.VerifySound(s, d, e, copy);
    var s1 := Runs.Exec(s, verify).value;
    TwoSteps(s, verify, share);
    ShareThenStore(s1, d, d', e, i, b);
    ThreeSteps(s, verify, share, Runs.KernelStore(d, e, i, b));
    ShareNeeds(s1, d, d', e);
  }

  /** The memory of three tasks in which only the first has a page, and that in frame f. */
  ghost predicate OnlyFirst(s: State, f: nat) {
    && (forall d: nat | FIRST_VM_DIR <= d < 1024 :: s.dir[d].Some? <==> d == TASK1 || d == TASK2 || d == TASK3)
    && (forall d: nat, e: nat | User(d, e) ::
          Entry(s, d, e) == if d == TASK1 && e == 0 then Present(f, false, false) else Absent)
  }

  /** Small after one of its two mappings was evicted. */
  lemma OneLeft()
    ensures var s := Small(false, ZeroPage(), false);
      && Evict(s, TASK2, 0).Some?
      && var s1 := Evict(s, TASK2, 0).value;
      && Inv(s1) && OnlyFirst(s1, COMMON) && s1.memMap == s.memMap[COMMON - LOWF := 1]
  {
    var s := Small(false, ZeroPage(), false);
    SmallInv(false, ZeroPage(), false);
    SmallEntries(false, ZeroPage(), false);
    assert Evict(s, TASK2, 0) == Some(Retarget(s, TASK2, 0, Absent));
    EvictStep(s, TASK2, 0);
  }

  lemma FirstMissed(s: State, f: nat, p: nat)
    requires OnlyFirst(s, f) && p < 1024
    ensures Clock.NoVictim(s, TASK4, p)
  {
    forall j: nat | j < Clock.Behind(TASK4, TASK1) ensures s.dir[Clock.Ring(TASK4, j)].None? {
      assert Clock.Ring(TASK4, j) == TASK4 + j;
    }
    forall d: nat, e: nat | User(d, e) && Evict(s, d, e).Some? ensures Clock.Missed(s, TASK4, p, d, e) {
      assert Entry(s, d, e).Present?;
    }
  }

  /** swap_out gives up although a frame could be had: its hand is on page p of a directory whose
      task has gone, and the one page that could be evicted is the first of the first table. */
  lemma SweepMisses(p: nat)
    requires p < 1024
    ensures var s := Small(false, ZeroPage(), false);
      && Evict(s, TASK2, 0).Some?
      && var s1 := Evict(s, TASK2, 0).value;
      && Inv(s1) && Clock.NoVictim(s1, TASK4, p) && Clock.OutOfMemory(s1)
      && Evict(s1, TASK1, 0).Some? && TakePage(Evict(s1, TASK1, 0).value).Some?
  {
    OneLeft();
    var s1 := Evict(Small(false, ZeroPage(), false), TASK2, 0).value;
    FirstMissed(s1, COMMON, p);
    UserTable(s1, TASK1);
    var s2 := Evict(s1, TASK1, 0).value;
    assert s2.memMap[COMMON - LOWF] == 0;
  }

  /** There are such memories, with every clean page backed: two tasks have the page in common,
      the third has not touched it. */
  lemma SharedExists()
    ensures var s := Small(false, ZeroPage(), true);
      && Inv(s) && Backed(s) && View(s, TASK1, 0) == ZeroPage()
      && Runs.Exec(s, Runs.Share(TASK1, TASK3, 0)).Some?
      && Runs.Run(s, [Runs.Verify(TASK1, 0, true), Runs.Share(TASK1, TASK3, 0)]).Some?
  {
    var s := Small(false, ZeroPage(), true);
    SmallInv(false, ZeroPage(), true);
    SmallEntries(false, ZeroPage(), true);
    BothPossible(s, TASK1, TASK3, 0);
    ShareIs(s, TASK1, TASK3, 0);
    assert s.memMap[4] == 0;
    VerifiedShares(s, TASK1, TASK3, 0);
  }

  lemma VerifiedShares(s: State, d: nat, d': nat, e: nat)
    requires Inv(s) && User(d, e) && User(d', e) && d' != d && d' % TASK_DIRS == d % TASK_DIRS && TakePage(s).Some?
    requires HasTable(s, d) && HasTable(s, d') && Entry(s, d', e) == Absent
    requires Entry(s, d, e).Present? && !Entry(s, d, e).rw
    requires ImageOf(s, d', e) == ImageOf(s, d, e)
    ensures Runs.Run(s, [Runs.Verify(d, e, true), Runs.Share(d, d', e)]).Some?
  {
    CopyPossible(s, d, e);
    VerifyIs(s, d, e);
    UnshareStep(s, d, e, true);
    UnshareCopies(s, d, e);
    UnshareElsewhere(s, d, e, d', e);
    var s1 := Unshare(s, d, e, true).value;
    BothPossible(s1, d, d', e);
    ShareIs(s1, d, d', e);
    TwoSteps(s, Runs.Verify(d, e, true), Runs.Share(d, d', e));
  }
}
