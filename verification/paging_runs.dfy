/** Runs of the memory manager: whatever the tasks and the reclaimer do, every task sees
    exactly the memory it would see if it owned a private copy of all its pages. */
module PagingRuns {
  import opened Wrappers
  import opened PagingState
  import opened PagingOps
  import opened PagingSteps

  datatype Step =
    | Reclaim(d: nat, e: nat)                                   // swap_out picks this entry
    | Load(d: nat, e: nat)                                      // do_no_page, demand loading
    | Fetch(d: nat, e: nat)                                     // do_no_page, swap_in
    | Share(fd: nat, d: nat, e: nat)                            // do_no_page, try_to_share
    | Store(d: nat, e: nat, i: nat, b: nat, copy: bool)         // a task writes, with do_wp_page before if needed
    | KernelStore(d: nat, e: nat, i: nat, b: nat)               // put_fs_byte: the kernel writes for a task
    | Verify(d: nat, e: nat, copy: bool)                        // write_verify: the page may never be written
    | ForkEntry(fd: nat, d: nat, e: nat)                        // one turn of copy_page_tables
    | PutArg(d: nat, e: nat, page: Page)                        // exec places an argument page
    | Clear(d: nat, e: nat)                                     // one turn of free_page_tables
    | NewImage(d: nat, e: nat, page: Page)                      // exec: another executable
    | Rewrite(d: nat, e: nat, page: Page)                       // file_write to the file that a task runs
    | AddTable(d: nat)
    | RemoveTable(d: nat)

  function Exec(s: State, step: Step): Option<State> {
    match step
    case Reclaim(d, e) => if User(d, e) then Evict(s, d, e) else None
    case Load(d, e) => if User(d, e) then InstallPage(s, d, e, ImageOf(s, d, e), false) else None
    case Fetch(d, e) => if User(d, e) then SwapIn(s, d, e) else None
    case Share(fd, d, e) =>
      if User(fd, e) && User(d, e) && fd % TASK_DIRS == d % TASK_DIRS && IsClean(Entry(s, fd, e))
         && Entry(s, fd, e).pfn >= LOWF && ImageOf(s, fd, e) == ImageOf(s, d, e)
      then MapBoth(s, fd, d, e) else None
    case Store(d, e, i, b, copy) =>
      if !User(d, e) || !Entry(s, d, e).Present? then None
      else if IsRw(Entry(s, d, e)) then StoreByte(s, d, e, i, b)
      else (match Unshare(s, d, e, copy)
            case None => None
            case Some(s1) => StoreByte(s1, d, e, i, b))
    case KernelStore(d, e, i, b) => if User(d, e) then PagingSteps.KernelStore(s, d, e, i, b) else None
    case Verify(d, e, copy) =>
      if !User(d, e) then None
      else if !Entry(s, d, e).Present? || IsRw(Entry(s, d, e)) then Some(s)
      else Unshare(s, d, e, copy)
    case ForkEntry(fd, d, e) =>
      if User(fd, e) && User(d, e) && fd != d && fd % TASK_DIRS == d % TASK_DIRS then CopyEntry(s, fd, d, e) else None
    case PutArg(d, e, page) =>
      if User(d, e) then InstallPage(s, d, e, page, true) else None
    case Clear(d, e) => if User(d, e) then ClearEntry(s, d, e) else None
    case NewImage(d, e, page) =>
      if User(d, e) && Entry(s, d, e) == Absent then Some(s.(image := s.image[d := s.image[d][e := page]])) else None
    case Rewrite(d, e, page) =>
      if User(d, e) then Some(s.(image := s.image[d := s.image[d][e := page]])) else None
    case AddTable(d) =>
      if !(FIRST_VM_DIR <= d < 1024) || s.dir[d].Some? then None
      else (match TakePage(s) case None => None case Some(s1) => Some(NewTable(s1, d, TakenFrame(s))))
    case RemoveTable(d) =>
      if FIRST_VM_DIR <= d < 1024 && HasTable(s, d) && (forall e: nat | e < 1024 :: Entry(s, d, e) == Absent)
      then Some(DropTable(s, d)) else None
  }

  /** The reference: every page of every task is stored on its own. `view` is what tasks
      read, `image` what a never-touched page holds. No frames, no tables, no sharing. */
  datatype Private = Private(image: Image, view: Image)

  function Put(m: Image, d: nat, e: nat, page: Page): Image {
    if d < 1024 && e < 1024 then m[d := m[d][e := page]] else m
  }

  function At(m: Image, d: nat, e: nat): Page {
    if d < 1024 && e < 1024 then m[d][e] else ZeroPage()
  }

  function Changed(page: Page, i: nat, b: nat): Page {
    if i < 4096 then page[i := b] else page
  }

  function PrivateStep(v: Private, step: Step): Private {
    match step
    case Store(d, e, i, b, _) => v.(view := Put(v.view, d, e, Changed(At(v.view, d, e), i, b)))
    case KernelStore(d, e, i, b) => v.(view := Put(v.view, d, e, Changed(At(v.view, d, e), i, b)))
    case ForkEntry(fd, d, e) => Private(Put(v.image, d, e, At(v.image, fd, e)), Put(v.view, d, e, At(v.view, fd, e)))
    case PutArg(d, e, page) => v.(view := Put(v.view, d, e, page))
    case Clear(d, e) => v.(view := Put(v.view, d, e, At(v.image, d, e)))
    case NewImage(d, e, page) => Private(Put(v.image, d, e, page), Put(v.view, d, e, page))
    case Rewrite(d, e, page) => v.(image := Put(v.image, d, e, page))
    case _ => v
  }

  /** The tasks of s see exactly the private memories v. */
  ghost predicate Sees(s: State, v: Private) {
    forall d: nat, e: nat | User(d, e) :: At(v.view, d, e) == View(s, d, e) && At(v.image, d, e) == ImageOf(s, d, e)
  }

  function Target(step: Step): Option<(nat, nat)> {
    match step
    case Reclaim(d, e) => Some((d, e))
    case Load(d, e) => Some((d, e))
    case Fetch(d, e) => Some((d, e))
    case Share(_, d, e) => Some((d, e))
    case Store(d, e, _, _, _) => Some((d, e))
    case KernelStore(d, e, _, _) => Some((d, e))
    case Verify(d, e, _) => Some((d, e))
    case ForkEntry(_, d, e) => Some((d, e))
    case PutArg(d, e, _) => Some((d, e))
    case Clear(d, e) => Some((d, e))
    case NewImage(d, e, _) => Some((d, e))
    case Rewrite(d, e, _) => Some((d, e))
    case _ => None
  }

  /** Steps that act on their target's contents on behalf of its owner. */
  predicate Writes(step: Step) {
    step.Store? || step.KernelStore? || step.ForkEntry? || step.PutArg? || step.Clear? || step.NewImage?
  }

  /** Everything one entry-step is asked to guarantee. */
  ghost predicate Sound(s: State, step: Step, s': State, d: nat, e: nat) {
    Inv(s') && OthersSee(s, s', d, e) && BackedAt(s', d, e)
  }

  lemma StoreSound(s: State, d: nat, e: nat, i: nat, b: nat, copy: bool)
    requires Inv(s) && Exec(s, Store(d, e, i, b, copy)).Some?
    ensures var s' := Exec(s, Store(d, e, i, b, copy)).value;
      Sound(s, Store(d, e, i, b, copy), s', d, e) && i < 4096 && View(s', d, e) == View(s, d, e)[i := b]
      && ImageOf(s', d, e) == ImageOf(s, d, e)
  {
    if IsRw(Entry(s, d, e)) {
      StoreByteStep(s, d, e, i, b);
    } else {
      UnshareStep(s, d, e, copy);
      var s1 := Unshare(s, d, e, copy).value;
      StoreByteStep(s1, d, e, i, b);
      OthersTrans(s, s1, StoreByte(s1, d, e, i, b).value, d, e);
    }
  }

  lemma OthersTrans(s: State, s1: State, s2: State, d: nat, e: nat)
    requires OthersSee(s, s1, d, e) && OthersSee(s1, s2, d, e)
    ensures OthersSee(s, s2, d, e)
  {
  }

  lemma AddTableSound(s: State, d: nat)
    requires Inv(s) && Exec(s, AddTable(d)).Some?
    ensures var s' := Exec(s, AddTable(d)).value;
      && Inv(s') && s'.image == s.image && HasTable(s', d)
      && forall d': nat, e: nat | User(d', e) ::
            View(s', d', e) == View(s, d', e) && Entry(s', d', e) == Entry(s, d', e)
  {
    NewTableStep(s, d);
  }

  lemma RemoveTableSound(s: State, d: nat)
    requires Inv(s) && Exec(s, RemoveTable(d)).Some?
    ensures var s' := Exec(s, RemoveTable(d)).value;
      && Inv(s') && s'.image == s.image
      && forall d': nat, e: nat | User(d', e) ::
            View(s', d', e) == View(s, d', e) && Entry(s', d', e) == Entry(s, d', e)
  {
    DropTableInv(s, d);
    var s' := DropTable(s, d);
    forall d': nat, e: nat | User(d', e) ensures View(s', d', e) == View(s, d', e) {
      assert Entry(s', d', e) == Entry(s, d', e);
    }
  }

  lemma NewImageSound(s: State, d: nat, e: nat, page: Page)
    requires Inv(s) && Exec(s, NewImage(d, e, page)).Some?
    ensures var s' := Exec(s, NewImage(d, e, page)).value;
      Sound(s, NewImage(d, e, page), s', d, e) && View(s', d, e) == page && ImageOf(s', d, e) == page
  {
    NotSpecific(s, Exec(s, NewImage(d, e, page)).value);
  }

  /** A shared page shows the sharer the page of the other task. */
  lemma ShareSound(s: State, fd: nat, d: nat, e: nat)
    requires Inv(s) && Exec(s, Share(fd, d, e)).Some?
    ensures var s' := Exec(s, Share(fd, d, e)).value;
      && Inv(s') && OthersSee(s, s', d, e) && s'.image == s.image
      && View(s', d, e) == View(s, fd, e) && View(s, d, e) == ImageOf(s, fd, e)
      && (BackedAt(s, fd, e) <==> View(s, fd, e) == ImageOf(s, fd, e)) && (BackedAt(s', d, e) <==> BackedAt(s, fd, e))
  {
    MapBothStep(s, fd, d, e);
  }

  lemma VerifySound(s: State, d: nat, e: nat, copy: bool)
    requires Inv(s) && Exec(s, Verify(d, e, copy)).Some?
    ensures var s' := Exec(s, Verify(d, e, copy)).value;
      && Inv(s') && OthersSee(s, s', d, e) && s'.image == s.image && View(s', d, e) == View(s, d, e)
      && (BackedAt(s, d, e) && !CopiesDirty(s, d, e, copy) ==> BackedAt(s', d, e))
  {
    if Entry(s, d, e).Present? && !IsRw(Entry(s, d, e)) {
      UnshareStep(s, d, e, copy);
    }
  }

  /** What write_verify can see before it un-shares: the page it copies is dirty, or one of the
      kernel's own. The copy will be marked clean although no file has its bytes. */
  predicate CopiesDirty(s: State, d: nat, e: nat, copy: bool) {
    var p := Entry(s, d, e);
    copy && p.Present? && !p.rw && (p.dirty || p.pfn < LOWF)
  }

  /** Another place of a task's memory that maps the same frame. */
  predicate Sharer(s: State, d: nat, e: nat, d': nat, e': nat) {
    User(d', e') && (d' != d || e' != e) && Entry(s, d, e).Present? && Maps(Entry(s, d', e'), Entry(s, d, e).pfn)
  }

  ghost predicate HasSharer(s: State, d: nat, e: nat) {
    exists d': nat, e': nat :: Sharer(s, d, e, d', e')
  }

  /** The step that loses or leaks a page. Reclaim drops a clean page unlike its image, or another
      task is given such a page as the executable's; the kernel changes a byte of a page that
      others map too; or a file is changed of which a task has still to load the page. */
  ghost predicate Hits(s: State, step: Step) {
    match step
    case Reclaim(d, e) => !BackedAt(s, d, e)
    case Share(fd, _, e) => !BackedAt(s, fd, e)
    case KernelStore(d, e, i, b) => Changed(View(s, d, e), i, b) != View(s, d, e) && HasSharer(s, d, e)
    case Rewrite(d, e, page) => Entry(s, d, e) == Absent && page != ImageOf(s, d, e)
    case _ => false
  }

  lemma RewriteSound(s: State, d: nat, e: nat, page: Page)
    requires Inv(s) && Exec(s, Rewrite(d, e, page)).Some?
    ensures var s' := Exec(s, Rewrite(d, e, page)).value;
      && Inv(s') && OthersSee(s, s', d, e) && ImageOf(s', d, e) == page && Entry(s', d, e) == Entry(s, d, e)
      && View(s', d, e) == if Entry(s, d, e) == Absent then page else View(s, d, e)
  {
    NotSpecific(s, Exec(s, Rewrite(d, e, page)).value);
  }

  lemma RewriteExact(s: State, v: Private, d: nat, e: nat, page: Page)
    requires Inv(s) && Sees(s, v) && Exec(s, Rewrite(d, e, page)).Some?
    ensures var s' := Exec(s, Rewrite(d, e, page)).value;
      Inv(s') && (Sees(s', PrivateStep(v, Rewrite(d, e, page))) <==> !Hits(s, Rewrite(d, e, page)))
  {
    RewriteSound(s, d, e, page);
    var s', v' := Exec(s, Rewrite(d, e, page)).value, PrivateStep(v, Rewrite(d, e, page));
    assert At(v.view, d, e) == View(s, d, e);
    if View(s', d, e) == View(s, d, e) {
      PutAt(v.view, d, e);
      Follow(s, s', v, v', d, e);
    }
  }

  lemma KernelStoreExact(s: State, v: Private, d: nat, e: nat, i: nat, b: nat)
    requires Inv(s) && Sees(s, v) && Exec(s, KernelStore(d, e, i, b)).Some?
    ensures var s' := Exec(s, KernelStore(d, e, i, b)).value;
      Inv(s') && (Sees(s', PrivateStep(v, KernelStore(d, e, i, b))) <==> !Hits(s, KernelStore(d, e, i, b)))
  {
    KernelStoreStep(s, d, e, i, b);
    var s', v' := Exec(s, KernelStore(d, e, i, b)).value, PrivateStep(v, KernelStore(d, e, i, b));
    var old', new' := View(s, d, e), View(s, d, e)[i := b];
    assert At(v.view, d, e) == old';
    forall d': nat, e': nat | User(d', e')
      ensures At(v'.view, d', e') == (if d' == d && e' == e then new' else View(s, d', e'))
      ensures View(s', d', e') == (if (d' == d && e' == e) || Sharer(s, d, e, d', e') then new' else View(s, d', e'))
      ensures Sharer(s, d, e, d', e') ==> View(s, d', e') == old'
    {
      assert At(v.view, d', e') == View(s, d', e');
    }
    if new' != old' && HasSharer(s, d, e) {
      var d': nat, e': nat :| Sharer(s, d, e, d', e');
      assert At(v'.view, d', e') != View(s', d', e');
    }
  }

  /** One changed entry on both sides. */
  lemma Follow(s: State, s': State, v: Private, v': Private, d: nat, e: nat)
    requires Sees(s, v) && User(d, e) && OthersSee(s, s', d, e)
    requires v' == Private(Put(v.image, d, e, ImageOf(s', d, e)), Put(v.view, d, e, View(s', d, e)))
    ensures Sees(s', v')
  {
    forall d', e' | User(d', e') && (d' != d || e' != e)
      ensures At(v'.view, d', e') == View(s', d', e') && At(v'.image, d', e') == ImageOf(s', d', e')
    {
      assert At(v.view, d', e') == View(s, d', e');
    }
  }

  lemma PutAt(m: Image, d: nat, e: nat)
    ensures Put(m, d, e, At(m, d, e)) == m
  {
    if d < 1024 && e < 1024 {
      assert m[d][e := m[d][e]] == m[d];
      assert m[d := m[d]] == m;
    }
  }

  /** Steps that are to change nobody's view. */
  lemma QuietStep(s: State, s': State, v: Private, d: nat, e: nat)
    requires Sees(s, v) && User(d, e) && OthersSee(s, s', d, e) && ImageOf(s', d, e) == ImageOf(s, d, e)
    ensures Sees(s', v) <==> View(s', d, e) == View(s, d, e)
  {
    if View(s', d, e) == View(s, d, e) {
      PutAt(v.image, d, e);
      PutAt(v.view, d, e);
      Follow(s, s', v, v, d, e);
    } else {
      assert At(v.view, d, e) == View(s, d, e);
    }
  }

  /** Steps that change the view at their target, and at most its image. */
  lemma LoudStep(s: State, s': State, v: Private, v': Private, d: nat, e: nat)
    requires Sees(s, v) && User(d, e) && OthersSee(s, s', d, e)
    requires v'.view == Put(v.view, d, e, View(s', d, e))
    requires v'.image == Put(v.image, d, e, ImageOf(s', d, e)) || (v'.image == v.image &&
      ImageOf(s', d, e) == ImageOf(s, d, e))
    ensures Sees(s', v')
  {
    PutAt(v.image, d, e);
    Follow(s, s', v, v', d, e);
  }

  lemma QuietSteps(s: State, v: Private, step: Step)
    requires Inv(s) && Sees(s, v) && Exec(s, step).Some? && !Writes(step) && !step.Rewrite?
    ensures Inv(Exec(s, step).value) && (Sees(Exec(s, step).value, v) <==> !Hits(s, step))
  {
    var s' := Exec(s, step).value;
    match step {
      case Reclaim(d, e) => EvictStep(s, d, e); QuietStep(s, s', v, d, e);
      case Load(d, e) => InstallStep(s, d, e, ImageOf(s, d, e), false); QuietStep(s, s', v, d, e);
      case Fetch(d, e) => SwapInStep(s, d, e); QuietStep(s, s', v, d, e);
      case Share(fd, d, e) => ShareSound(s, fd, d, e); QuietStep(s, s', v, d, e);
      case Verify(d, e, copy) => VerifySound(s, d, e, copy); QuietStep(s, s', v, d, e);
      case AddTable(d) => AddTableSound(s, d);
      case RemoveTable(d) => RemoveTableSound(s, d);
    }
  }

  /** One step, on any good memory: the invariants survive, and the private memories are
      followed if and only if the step is none of those that lose or leak a page. */
  lemma StepExactIff(s: State, v: Private, step: Step)
    requires Inv(s) && Sees(s, v) && Exec(s, step).Some?
    ensures Inv(Exec(s, step).value)
    ensures Sees(Exec(s, step).value, PrivateStep(v, step)) <==> !Hits(s, step)
  {
    var s' := Exec(s, step).value;
    var v' := PrivateStep(v, step);
    if step.Rewrite? {
      RewriteExact(s, v, step.d, step.e, step.page);
    } else if step.KernelStore? {
      KernelStoreExact(s, v, step.d, step.e, step.i, step.b);
    } else if !Writes(step) {
      QuietSteps(s, v, step);
    } else {
      match step {
        case Store(d, e, i, b, copy) => StoreSound(s, d, e, i, b, copy); LoudStep(s, s', v, v', d, e);
        case ForkEntry(fd, d, e) => CopyEntryStep(s, fd, d, e); LoudStep(s, s', v, v', d, e);
        case PutArg(d, e, page) => InstallStep(s, d, e, page, true); LoudStep(s, s', v, v', d, e);
        case Clear(d, e) => ClearEntryStep(s, d, e); LoudStep(s, s', v, v', d, e);
        case NewImage(d, e, page) => NewImageSound(s, d, e, page); LoudStep(s, s', v, v', d, e);
      }
    }
  }

  /** Every clean present page outside `open` equals what a fault would bring in. */
  ghost predicate BackedBut(s: State, open: set<(nat, nat)>) {
    forall d: nat, e: nat | User(d, e) && (d, e) !in open :: BackedAt(s, d, e)
  }

  /** The clean mappings of the frame that (d, e) maps. */
  function CleanSharers(s: State, d: nat, e: nat): set<(nat, nat)> {
    set d': nat, e': nat | d' < 1024 && e' < 1024 && Sharer(s, d, e, d', e') && IsClean(Entry(s, d', e')) :: (d', e')
  }

  /** The places that were un-shared from a dirty page and not stored to since, and those that
      got such a page by fork; those whose page the kernel has changed in writing for another
      task; and those whose file was changed after they had loaded it. */
  function Open(s: State, open: set<(nat, nat)>, step: Step): set<(nat, nat)> {
    match step
    case Verify(d, e, copy) => if CopiesDirty(s, d, e, copy) then open + {(d, e)} else open
    case Share(fd, d, e) => if (fd, e) in open then open + {(d, e)} else open - {(d, e)}
    case ForkEntry(fd, d, e) => if (fd, e) in open then open + {(d, e)} else open - {(d, e)}
    case KernelStore(d, e, _, _) =>
      if IsRw(Entry(s, d, e)) then open - {(d, e)} else open - {(d, e)} + CleanSharers(s, d, e)
    case Rewrite(d, e, _) => if IsClean(Entry(s, d, e)) then open + {(d, e)} else open
    case AddTable(_) => open
    case RemoveTable(_) => open
    case _ => open - {Target(step).value}
  }

  lemma OpenOthers(s: State, s': State, open: set<(nat, nat)>, open': set<(nat, nat)>, d: nat, e: nat)
    requires BackedBut(s, open) && OthersSee(s, s', d, e)
    requires open' == open + {(d, e)} || (open' == open && ((d, e) !in open ==> BackedAt(s', d, e))) ||
      (open' == open - {(d, e)} && BackedAt(s', d, e))
    ensures BackedBut(s', open')
  {
    forall d': nat, e': nat | User(d', e') && (d', e') !in open' ensures BackedAt(s', d', e') {
      if (d', e') != (d, e) { assert BackedAt(s, d', e'); }
    }
  }

  lemma OpenShare(s: State, open: set<(nat, nat)>, fd: nat, d: nat, e: nat)
    requires Inv(s) && BackedBut(s, open) && Exec(s, Share(fd, d, e)).Some?
    ensures BackedBut(Exec(s, Share(fd, d, e)).value, Open(s, open, Share(fd, d, e)))
  {
    ShareSound(s, fd, d, e);
    OpenOthers(s, Exec(s, Share(fd, d, e)).value, open, Open(s, open, Share(fd, d, e)), d, e);
  }

  /** A writable page has no other mapping. */
  lemma WritableAlone(s: State, d: nat, e: nat, d': nat, e': nat)
    requires Inv(s) && User(d, e) && IsRw(Entry(s, d, e))
    ensures !Sharer(s, d, e, d', e')
  {
    if Sharer(s, d, e, d', e') { WritableIsSole(s, d, e, AsPage(d', e')); }
  }

  lemma OpenKernelStore(s: State, open: set<(nat, nat)>, d: nat, e: nat, i: nat, b: nat)
    requires Inv(s) && BackedBut(s, open) && Exec(s, KernelStore(d, e, i, b)).Some?
    ensures BackedBut(Exec(s, KernelStore(d, e, i, b)).value, Open(s, open, KernelStore(d, e, i, b)))
  {
    KernelStoreStep(s, d, e, i, b);
    var s', open' := Exec(s, KernelStore(d, e, i, b)).value, Open(s, open, KernelStore(d, e, i, b));
    forall d': nat, e': nat | User(d', e') && (d', e') !in open' ensures BackedAt(s', d', e') {
      if (d', e') != (d, e) {
        assert BackedAt(s, d', e');
        if IsRw(Entry(s, d, e)) { WritableAlone(s, d, e, d', e'); }
      }
    }
  }

  lemma OpenQuiet(s: State, open: set<(nat, nat)>, step: Step)
    requires Inv(s) && BackedBut(s, open) && Exec(s, step).Some? && !Writes(step)
    ensures BackedBut(Exec(s, step).value, Open(s, open, step))
  {
    var s', open' := Exec(s, step).value, Open(s, open, step);
    match step {
      case Reclaim(d, e) => EvictStep(s, d, e); OpenOthers(s, s', open, open', d, e);
      case Load(d, e) => InstallStep(s, d, e, ImageOf(s, d, e), false); OpenOthers(s, s', open, open', d, e);
      case Fetch(d, e) => SwapInStep(s, d, e); OpenOthers(s, s', open, open', d, e);
      case Share(fd, d, e) => OpenShare(s, open, fd, d, e);
      case Verify(d, e, copy) => VerifySound(s, d, e, copy); OpenOthers(s, s', open, open', d, e);
      case Rewrite(d, e, page) => RewriteSound(s, d, e, page); OpenOthers(s, s', open, open', d, e);
      case AddTable(d) => AddTableSound(s, d); OpenTable(s, s', open);
      case RemoveTable(d) => RemoveTableSound(s, d); OpenTable(s, s', open);
    }
  }

  /** `open` covers the pages that may be hit, after any step. */
  lemma OpenStep(s: State, open: set<(nat, nat)>, step: Step)
    requires Inv(s) && BackedBut(s, open) && Exec(s, step).Some?
    ensures BackedBut(Exec(s, step).value, Open(s, open, step))
  {
    var s', open' := Exec(s, step).value, Open(s, open, step);
    if !Writes(step) {
      OpenQuiet(s, open, step);
    } else {
      match step {
        case Store(d, e, i, b, copy) => StoreSound(s, d, e, i, b, copy); OpenOthers(s, s', open, open', d, e);
        case KernelStore(d, e, i, b) => OpenKernelStore(s, open, d, e, i, b);
        case ForkEntry(fd, d, e) => CopyEntryStep(s, fd, d, e); OpenOthers(s, s', open, open', d, e);
        case PutArg(d, e, page) => InstallStep(s, d, e, page, true); OpenOthers(s, s', open, open', d, e);
        case Clear(d, e) => ClearEntryStep(s, d, e); OpenOthers(s, s', open, open', d, e);
        case NewImage(d, e, page) => NewImageSound(s, d, e, page); OpenOthers(s, s', open, open', d, e);
      }
    }
  }

  lemma OpenTable(s: State, s': State, open: set<(nat, nat)>)
    requires BackedBut(s, open) && s'.image == s.image
    requires forall d: nat, e: nat | User(d, e) :: View(s', d, e) == View(s, d, e) && Entry(s', d, e) == Entry(s, d, e)
    ensures BackedBut(s', open)
  {
    forall d: nat, e: nat | User(d, e) && (d, e) !in open ensures BackedAt(s', d, e) { assert BackedAt(s, d, e); }
  }

  /** The step neither reclaims nor shares a page of a place in `open`, the kernel writes to
      writable pages only, and no file is changed of which a task has still to load the page. */
  predicate Avoids(s: State, open: set<(nat, nat)>, step: Step) {
    match step
    case Reclaim(d, e) => (d, e) !in open
    case Share(fd, _, e) => (fd, e) !in open
    case KernelStore(d, e, _, _) => IsRw(Entry(s, d, e))
    case Rewrite(d, e, page) => Entry(s, d, e) != Absent || page == ImageOf(s, d, e)
    case _ => true
  }

  /** One step: the invariants survive, and the private memories are followed exactly. */
  lemma StepFollowsPrivate(s: State, open: set<(nat, nat)>, v: Private, step: Step)
    requires Inv(s) && BackedBut(s, open) && Sees(s, v) && Exec(s, step).Some? && Avoids(s, open, step)
    ensures Inv(Exec(s, step).value) && BackedBut(Exec(s, step).value, Open(s, open, step))
    ensures Sees(Exec(s, step).value, PrivateStep(v, step))
  {
    StepExactIff(s, v, step);
    OpenStep(s, open, step);
    if step.Reclaim? { assert BackedAt(s, step.d, step.e); }
    if step.Share? { assert BackedAt(s, step.fd, step.e); }
    if step.KernelStore? {
      forall d': nat, e': nat ensures !Sharer(s, step.d, step.e, d', e') { WritableAlone(s, step.d, step.e, d', e'); }
    }
  }

  function Run(s: State, steps: seq<Step>): Option<State>
    decreases |steps|
  {
    if steps == [] then Some(s)
    else match Exec(s, steps[0]) case None => None case Some(s1) => Run(s1, steps[1..])
  }

  function PrivateRun(v: Private, steps: seq<Step>): Private
    decreases |steps|
  {
    if steps == [] then v else PrivateRun(PrivateStep(v, steps[0]), steps[1..])
  }

  /** No step of the run hits a page, by tests that can be made before the step. */
  ghost predicate AvoidsAll(s: State, open: set<(nat, nat)>, steps: seq<Step>)
    decreases |steps|
  {
    steps == [] ||
    (Avoids(s, open, steps[0]) && Exec(s, steps[0]).Some? &&
      AvoidsAll(Exec(s, steps[0]).value, Open(s, open, steps[0]), steps[1..]))
  }

  function OpenAfter(s: State, open: set<(nat, nat)>, steps: seq<Step>): set<(nat, nat)>
    decreases |steps|
  {
    if steps == [] || Exec(s, steps[0]).None? then open
    else OpenAfter(Exec(s, steps[0]).value, Open(s, open, steps[0]), steps[1..])
  }

  /** Copy-on-write, swapping, demand loading and sharing are invisible: over any run that does
      not hit a page, from any good state, all tasks together see what fully private memories
      would hold. */
  lemma {:induction false} RunFollowsPrivate(s: State, open: set<(nat, nat)>, v: Private, steps: seq<Step>)
    requires Inv(s) && BackedBut(s, open) && Sees(s, v) && Run(s, steps).Some? && AvoidsAll(s, open, steps)
    ensures Inv(Run(s, steps).value) && BackedBut(Run(s, steps).value, OpenAfter(s, open, steps))
    ensures Sees(Run(s, steps).value, PrivateRun(v, steps))
    decreases |steps|
  {
    if steps != [] {
      StepFollowsPrivate(s, open, v, steps[0]);
      RunFollowsPrivate(Exec(s, steps[0]).value, Open(s, open, steps[0]), PrivateStep(v, steps[0]), steps[1..]);
    }
  }

  /** The step puts no page at risk: write_verify copies no dirty page, the kernel writes to
      writable pages, and no file is changed of which a task has a clean page or none. */
  predicate Careful(s: State, step: Step) {
    match step
    case Verify(d, e, copy) => !CopiesDirty(s, d, e, copy)
    case KernelStore(d, e, _, _) => IsRw(Entry(s, d, e))
    case Rewrite(d, e, _) => Entry(s, d, e) != Absent && !IsClean(Entry(s, d, e))
    case _ => true
  }

  predicate CarefulAll(s: State, steps: seq<Step>)
    decreases |steps|
  {
    steps == [] ||
    (Careful(s, steps[0]) && Exec(s, steps[0]).Some? && CarefulAll(Exec(s, steps[0]).value, steps[1..]))
  }

  /** Then none ever is, and every run is followed. */
  lemma {:induction false} QuietRuns(s: State, steps: seq<Step>)
    requires Run(s, steps).Some? && CarefulAll(s, steps)
    ensures AvoidsAll(s, {}, steps) && OpenAfter(s, {}, steps) == {}
    decreases |steps|
  {
    if steps != [] {
      assert Open(s, {}, steps[0]) == {};
      QuietRuns(Exec(s, steps[0]).value, steps[1..]);
    }
  }

  predicate Leaves(steps: seq<Step>, d: nat, e: nat) {
    forall step <- steps :: Writes(step) ==> Target(step) != Some((d, e))
  }

  lemma {:induction false} PrivateFrame(v: Private, steps: seq<Step>, d: nat, e: nat)
    requires Leaves(steps, d, e)
    ensures At(PrivateRun(v, steps).view, d, e) == At(v.view, d, e)
    decreases |steps|
  {
    if steps != [] {
      assert steps[0] in steps;
      PrivateFrame(PrivateStep(v, steps[0]), steps[1..], d, e);
    }
  }

  function Views(s: State): Private {
    Private(s.image, seq<ImageRow>(1024, d requires 0 <= d < 1024 => seq<Page>(1024,
      e requires 0 <= e < 1024 => View(s, d, e))))
  }

  /** Isolation: a page that no step of the run writes on its owner's behalf is unchanged,
      however often its frame was shared, copied, swapped out or read back meanwhile. */
  lemma CowIsolation(s: State, open: set<(nat, nat)>, steps: seq<Step>, d: nat, e: nat)
    requires Inv(s) && BackedBut(s, open) && Run(s, steps).Some? && AvoidsAll(s, open, steps)
    requires User(d, e) && Leaves(steps, d, e)
    ensures View(Run(s, steps).value, d, e) == View(s, d, e)
  {
    RunFollowsPrivate(s, open, Views(s), steps);
    PrivateFrame(Views(s), steps, d, e);
  }
}
