/** When the kernel may write to a task's page: what write_verify gains, and which steps take it
    away again before the write. */
module PagingKernel {
  import opened Wrappers
  import opened PagingState
  import opened PagingOps
  import opened PagingSteps
  import opened PagingRuns

  /** A present page is writable after write_verify, and none of the kernel's own. */
  lemma VerifyGives(s: State, d: nat, e: nat, copy: bool)
    requires Inv(s) && Entry(s, d, e).Present? && Exec(s, Verify(d, e, copy)).Some?
    ensures var p := Entry(Exec(s, Verify(d, e, copy)).value, d, e); IsRw(p) && LOWF <= p.pfn < TOTALF
  {
    if !IsRw(Entry(s, d, e)) { UnshareStep(s, d, e, copy); }
    WritableIsSole(Exec(s, Verify(d, e, copy)).value, d, e, AsPage(d, e));
  }

  /** The step takes the page at (d, e) out, or has another task map it. */
  predicate Protects(step: Step, d: nat, e: nat) {
    match step
    case Reclaim(d', e') => d' == d && e' == e
    case Clear(d', e') => d' == d && e' == e
    case Share(fd, _, e') => fd == d && e' == e
    case ForkEntry(fd, _, e') => fd == d && e' == e
    case _ => false
  }

  lemma InstallEntries(s: State, d: nat, e: nat, page: Page, dirty: bool, d': nat, e': nat)
    requires Inv(s) && User(d, e) && InstallPage(s, d, e, page, dirty).Some? && User(d', e') && (d' != d || e' != e)
    ensures Entry(InstallPage(s, d, e, page, dirty).value, d', e') == Entry(s, d', e')
  {
    FreshPage(s, page);
    RetargetEntries(SetBytes(TakePage(s).value, TakenFrame(s), page), d, e, Present(TakenFrame(s), true, dirty));
  }

  lemma UnshareEntries(s: State, d: nat, e: nat, copy: bool, d': nat, e': nat)
    requires Inv(s) && User(d, e) && Unshare(s, d, e, copy).Some? && User(d', e') && (d' != d || e' != e)
    ensures Entry(Unshare(s, d, e, copy).value, d', e') == Entry(s, d', e')
  {
    var p := Entry(s, d, e);
    assert GoodPte(s, p);
    if copy {
      FreshPage(s, s.mem[p.pfn].page);
      var s2 := SetBytes(TakePage(s).value, TakenFrame(s), s.mem[p.pfn].page);
      RetargetEntries(s2, d, e, Present(TakenFrame(s), true, false));
    } else {
      RetargetEntries(s, d, e, Present(p.pfn, true, p.dirty));
    }
  }

  lemma StoreByteEntries(s: State, d: nat, e: nat, i: nat, b: nat, d': nat, e': nat)
    requires Inv(s) && User(d, e) && StoreByte(s, d, e, i, b).Some? && User(d', e') && (d' != d || e' != e)
    ensures Entry(StoreByte(s, d, e, i, b).value, d', e') == Entry(s, d', e')
  {
    var f := Entry(s, d, e).pfn;
    SetBytesInv(s, f, s.mem[f].page[i := b]);
    RetargetEntries(SetBytes(s, f, s.mem[f].page[i := b]), d, e, Present(f, true, true));
  }

  /** A user's store leaves its own entry writable and all others as they are. */
  lemma StoreRights(s: State, d: nat, e: nat, i: nat, b: nat, copy: bool, d': nat, e': nat)
    requires Inv(s) && Exec(s, Store(d, e, i, b, copy)).Some? && User(d', e') && IsRw(Entry(s, d', e'))
    ensures IsRw(Entry(Exec(s, Store(d, e, i, b, copy)).value, d', e'))
  {
    var s1 := if IsRw(Entry(s, d, e)) then s else Unshare(s, d, e, copy).value;
    if !IsRw(Entry(s, d, e)) {
      UnshareStep(s, d, e, copy);
      UnshareEntries(s, d, e, copy, d', e');
    }
    StoreByteStep(s1, d, e, i, b);
    if d' != d || e' != e { StoreByteEntries(s1, d, e, i, b, d', e'); }
  }

  /** fork's turn protects a writable source entry and leaves other writable entries alone. */
  lemma ForkRights(s: State, fd: nat, td: nat, e: nat, d': nat, e': nat)
    requires Inv(s) && Exec(s, ForkEntry(fd, td, e)).Some? && User(d', e') && IsRw(Entry(s, d', e'))
    ensures IsRw(Entry(Exec(s, ForkEntry(fd, td, e)).value, d', e')) <==> !(d' == fd && e' == e)
  {
    InheritStep(s, fd, td, e);
    WritableIsSole(s, d', e', AsPage(d', e'));
    var s0 := Inherit(s, fd, td, e);
    match Entry(s, fd, e) {
      case Absent =>
      case Present(_, _, _) => MapBothStep(s0, fd, td, e);
      case Swapped(_) =>
        HandOverSlot(s0, fd, td, e);
        SwapInStep(s0, fd, e);
    }
  }

  lemma ShareRights(s: State, fd: nat, td: nat, e: nat, d': nat, e': nat)
    requires Inv(s) && Exec(s, Share(fd, td, e)).Some? && User(d', e') && IsRw(Entry(s, d', e'))
    ensures IsRw(Entry(Exec(s, Share(fd, td, e)).value, d', e')) <==> !(d' == fd && e' == e)
  {
    MapBothStep(s, fd, td, e);
  }

  /** The write permission of a page is lost in exactly these steps: reclaim takes it or its owner
      frees it, or another task is given it by try_to_share or by fork. */
  lemma ProtectedIff(s: State, step: Step, d: nat, e: nat)
    requires Inv(s) && User(d, e) && IsRw(Entry(s, d, e)) && Exec(s, step).Some?
    ensures !IsRw(Entry(Exec(s, step).value, d, e)) <==> Protects(step, d, e)
  {
    match step {
      case Reclaim(d', e') => EvictStep(s, d', e');
      case Load(d', e') => InstallEntries(s, d', e', ImageOf(s, d', e'), false, d, e);
      case Fetch(d', e') => SwapInStep(s, d', e');
      case Share(fd, td, e') => ShareRights(s, fd, td, e', d, e);
      case Store(d', e', i, b, copy) => StoreRights(s, d', e', i, b, copy, d, e);
      case KernelStore(d', e', i, b) => KernelStoreStep(s, d', e', i, b);
      case Verify(d', e', copy) =>
        if Entry(s, d', e').Present? && !IsRw(Entry(s, d', e')) { UnshareEntries(s, d', e', copy, d, e); }
      case ForkEntry(fd, td, e') => ForkRights(s, fd, td, e', d, e);
      case PutArg(d', e', page) => InstallEntries(s, d', e', page, true, d, e);
      case Clear(d', e') => ClearEntryStep(s, d', e');
      case NewImage(_, _, _) =>
      case Rewrite(_, _, _) =>
      case AddTable(d') => AddTableSound(s, d');
      case RemoveTable(d') => RemoveTableSound(s, d');
    }
  }

  lemma {:induction false} StaysWritable(s: State, steps: seq<Step>, d: nat, e: nat)
    requires Inv(s) && User(d, e) && IsRw(Entry(s, d, e)) && Run(s, steps).Some?
    requires forall step <- steps :: !Protects(step, d, e)
    ensures IsRw(Entry(Run(s, steps).value, d, e))
    decreases |steps|
  {
    if steps != [] {
      assert steps[0] in steps;
      ProtectedIff(s, steps[0], d, e);
      StepExactIff(s, Views(s), steps[0]);
      StaysWritable(Exec(s, steps[0]).value, steps[1..], d, e);
    }
  }

  /** So whatever the other tasks do while a system call sleeps, the kernel's store to a page that
      was there at write_verify is private if nobody took or shared the page meanwhile. */
  lemma VerifiedStore(s: State, d: nat, e: nat, copy: bool, steps: seq<Step>, i: nat, b: nat)
    requires Inv(s) && Entry(s, d, e).Present? && Run(s, [Verify(d, e, copy)] + steps).Some? && i < 4096
    requires forall step <- steps :: !Protects(step, d, e)
    ensures var s' := Run(s, [Verify(d, e, copy)] + steps).value;
      && Exec(s', KernelStore(d, e, i, b)).Some? && !Hits(s', KernelStore(d, e, i, b))
      && Avoids(s', {}, KernelStore(d, e, i, b))
      && OneByte(s', Exec(s', KernelStore(d, e, i, b)).value, d, e, i, b)
  {
    var all := [Verify(d, e, copy)] + steps;
    assert all[1..] == steps;
    var s1 := Exec(s, Verify(d, e, copy)).value;
    VerifyGives(s, d, e, copy);
    VerifySound(s, d, e, copy);
    StaysWritable(s1, steps, d, e);
    RunInv(s1, steps);
    WritableStore(Run(s1, steps).value, d, e, i, b);
  }

  lemma {:induction false} RunInv(s: State, steps: seq<Step>)
    requires Inv(s) && Run(s, steps).Some?
    ensures Inv(Run(s, steps).value)
    decreases |steps|
  {
    if steps != [] {
      StepExactIff(s, Views(s), steps[0]);
      RunInv(Exec(s, steps[0]).value, steps[1..]);
    }
  }

  /** One task sees one byte changed, and nobody else sees anything. */
  ghost predicate OneByte(s: State, s': State, d: nat, e: nat, i: nat, b: nat)
    requires i < 4096
  {
    forall d': nat, e': nat | User(d', e') ::
      View(s', d', e') == if d' == d && e' == e then View(s, d, e)[i := b] else View(s, d', e')
  }

  /** The kernel can write to every present page. */
  lemma StorePossible(s: State, d: nat, e: nat, i: nat, b: nat)
    requires Inv(s) && User(d, e) && Entry(s, d, e).Present? && i < 4096
    ensures Exec(s, KernelStore(d, e, i, b)).Some?
  {
    assert GoodPte(s, Entry(s, d, e));
    var f := Entry(s, d, e).pfn;
    SetBytesInv(s, f, s.mem[f].page[i := b]);
    UserTable(s, d);
    UserTable(SetBytes(s, f, s.mem[f].page[i := b]), d);
  }

  lemma WritableStore(s: State, d: nat, e: nat, i: nat, b: nat)
    requires Inv(s) && User(d, e) && IsRw(Entry(s, d, e)) && i < 4096
    ensures Exec(s, KernelStore(d, e, i, b)).Some? && !Hits(s, KernelStore(d, e, i, b))
    ensures OneByte(s, Exec(s, KernelStore(d, e, i, b)).value, d, e, i, b)
  {
    StorePossible(s, d, e, i, b);
    KernelStoreStep(s, d, e, i, b);
    forall d': nat, e': nat ensures !Sharer(s, d, e, d', e') { WritableAlone(s, d, e, d', e'); }
    forall d': nat, e': nat | User(d', e') && (d' != d || e' != e)
      ensures !Maps(Entry(s, d', e'), Entry(s, d, e).pfn)
    {
      assert !Sharer(s, d, e, d', e');
    }
  }

  /** A store through an entry that maps memory below LOW_MEM, as the second task's do, changes the
      kernel's own memory and the view of all that map it. */
  lemma LowStore(s: State, d: nat, e: nat, i: nat, b: nat)
    requires Inv(s) && Exec(s, KernelStore(d, e, i, b)).Some? && Entry(s, d, e).pfn < LOWF
    ensures var s', page := Exec(s, KernelStore(d, e, i, b)).value, View(s, d, e);
      && i < 4096 && (SameLow(s, s') <==> page[i] == b)
      && s'.mem[Entry(s, d, e).pfn] == Bytes(page[i := b])
      && forall d': nat, e': nat | Sharer(s, d, e, d', e') ::
            View(s, d', e') == page && View(s', d', e') == page[i := b]
  {
    KernelStoreStep(s, d, e, i, b);
    var page := View(s, d, e);
    if page[i] == b { assert page[i := b] == page; }
  }
}
