/** The steps of the memory manager between two sleep points, each on a whole state: what
    it does to the invariants and to the page that every task sees at every address. */
module PagingSteps {
  import opened Wrappers
  import opened PagingState
  import opened PagingOps

  /** Where get_free_page stops: the last free frame below n, scanning downwards. */
  function LastFree(m: MemMap, n: nat): (r: Option<nat>)
    requires LOWF <= n <= TOTALF
    ensures r.Some? ==> LOWF <= r.value < n && m[r.value - LOWF] == 0
    ensures r.Some? ==> forall j | r.value - LOWF < j < n - LOWF :: m[j] != 0
    ensures r.None? ==> forall j | 0 <= j < n - LOWF :: m[j] != 0
  {
    if n == LOWF then None
    else if m[n - 1 - LOWF] == 0 then Some(n - 1)
    else LastFree(m, n - 1)
  }

  /** The first free slot at or after k: get_swap_page starts at 1. */
  function FirstSlot(b: SwapBits, k: nat): (r: Option<nat>)
    requires k <= SWAP_SLOTS
    decreases SWAP_SLOTS - k
    ensures r.Some? ==> k <= r.value < SWAP_SLOTS && b[r.value] && forall j | k <= j < r.value :: !b[j]
    ensures r.None? ==> forall j | k <= j < SWAP_SLOTS :: !b[j]
  {
    if k == SWAP_SLOTS then None
    else if b[k] then Some(k)
    else FirstSlot(b, k + 1)
  }

  lemma FreeIsManaged(s: State, f: nat)
    requires Inv(s) && LOWF <= f < TOTALF && Count(s, f) == 0
    ensures Managed(s, f)
  {
  }

  /** get_free_page without reclaim: None is the 0 it returns when memory is full. */
  function TakePage(s: State): Option<State> {
    match LastFree(s.memMap, TOTALF)
    case None => None
    case Some(f) => Some(Grab(s, f))
  }

  function TakenFrame(s: State): nat
    requires TakePage(s).Some?
  {
    LastFree(s.memMap, TOTALF).value
  }

  /** try_to_swap_out on the entry at (d, e); None where it returns 0. */
  function Evict(s: State, d: nat, e: nat): Option<State> {
    if !HasTable(s, d) || e >= 1024 then None else
      match Entry(s, d, e)
      case Present(f, _, dirty) =>
        if f < LOWF || f >= TOTALF then None
        else if !dirty then Some(Retarget(s, d, e, Absent))
        else if Count(s, f) != 1 || !s.mem[f].Bytes? then None
        else (match FirstSlot(s.bits, 1)
              case None => None
              case Some(k) => Some(Retarget(s, d, e, Swapped(k)).(swap := s.swap[k := s.mem[f].page])))
      case _ => None
  }

  /** put_page / put_dirty_page of the kernel's frame f at an empty entry of an existing table. */
  function PutPage(s: State, d: nat, e: nat, f: nat, dirty: bool): State
    requires HasTable(s, d) && e < 1024
  {
    Retarget(s, d, e, Present(f, true, dirty))
  }

  /** A fresh frame filled with `page` and mapped writable at an empty entry: clean for
      demand loading (put_page), dirty for exec's argument pages (put_dirty_page). */
  function InstallPage(s: State, d: nat, e: nat, page: Page, dirty: bool): Option<State> {
    if !HasTable(s, d) || e >= 1024 || Entry(s, d, e) != Absent then None else
      match TakePage(s)
      case None => None
      case Some(s1) =>
        var s2 := SetBytes(s1, TakenFrame(s), page);
        if HasTable(s2, d) then Some(PutPage(s2, d, e, TakenFrame(s), dirty)) else None
  }

  /** swap_in. */
  function SwapIn(s: State, d: nat, e: nat): Option<State> {
    if !HasTable(s, d) || e >= 1024 then None else
      match Entry(s, d, e)
      case Swapped(k) =>
        (match TakePage(s)
         case None => None
         case Some(s1) =>
           var s2 := SetBytes(s1, TakenFrame(s), if k < SWAP_SLOTS then s.swap[k] else ZeroPage());
           if HasTable(s2, d) then Some(PutPage(s2, d, e, TakenFrame(s), true)) else None)
      case _ => None
  }

  /** The two ways out of un_wp_page: keep the frame of a sole owner, or take a copy. */
  function Unshare(s: State, d: nat, e: nat, copy: bool): Option<State> {
    if !HasTable(s, d) || e >= 1024 then None else
      match Entry(s, d, e)
      case Present(f, _, dirty) =>
        if !copy then
          if LOWF <= f < TOTALF && Count(s, f) == 1 then Some(Retarget(s, d, e, Present(f, true, dirty))) else None
        else if f >= TOTALF || !s.mem[f].Bytes? then None
        else (match TakePage(s)
              case None => None
              case Some(s1) =>
                var s2 := SetBytes(s1, TakenFrame(s), s.mem[f].page);
                if HasTable(s2, d) then Some(Retarget(s2, d, e, Present(TakenFrame(s), true, false))) else None)
      case _ => None
  }

  /** One byte written through a writable entry; the processor sets the dirty bit. */
  function StoreByte(s: State, d: nat, e: nat, i: nat, b: nat): Option<State> {
    if !HasTable(s, d) || e >= 1024 || i >= 4096 then None else
      match Entry(s, d, e)
      case Present(f, rw, _) =>
        if !rw || f >= TOTALF || !s.mem[f].Bytes? then None
        else
          var s1 := SetBytes(s, f, s.mem[f].page[i := b]);
          if HasTable(s1, d) then Some(Retarget(s1, d, e, Present(f, true, true))) else None
      case _ => None
  }

  /** One byte written by the kernel, as put_fs_byte does: at privilege level 0 the read-only bit
      stops nobody (boot/head.s sets no write-protect bit), so every other mapping of the frame
      changes too. The processor sets the dirty bit of the entry it went through. */
  function KernelStore(s: State, d: nat, e: nat, i: nat, b: nat): Option<State> {
    if !HasTable(s, d) || e >= 1024 || i >= 4096 then None else
      match Entry(s, d, e)
      case Present(f, rw, _) =>
        if f >= TOTALF || !s.mem[f].Bytes? then None
        else
          var s1 := SetBytes(s, f, s.mem[f].page[i := b]);
          if HasTable(s1, d) then Some(Retarget(s1, d, e, Present(f, rw, true))) else None
      case _ => None
  }

  function Writable(p: Pte, rw: bool): Pte
  {
    if p.Present? then p.(rw := rw) else p
  }

  /** A clean or dirty page of directory fd also mapped at td, both read-only: the common
      core of copy_page_tables and try_to_share. Frames below LOW_MEM keep their entry. */
  function MapBoth(s: State, fd: nat, td: nat, e: nat): Option<State> {
    if !HasTable(s, fd) || !HasTable(s, td) || e >= 1024 || !Entry(s, fd, e).Present? ||
      Entry(s, td, e) != Absent then None
    else
      var p := Writable(Entry(s, fd, e), false);
      var s1 := if p.pfn >= LOWF then Retarget(s, fd, e, p) else s;
      if HasTable(s1, td) then Some(Retarget(s1, td, e, p)) else None
  }

  /** The child runs the parent's executable: a fault on an empty entry loads the same page. */
  function Inherit(s: State, fd: nat, td: nat, e: nat): State {
    if fd < 1024 && td < 1024 && e < 1024 then s.(image := s.image[td := s.image[td][e := s.image[fd][e]]]) else s
  }

  /** One turn of copy_page_tables' inner loop. A swapped page is read in for the parent,
      and the child gets the slot. The child's image is the parent's. */
  function CopyEntry(s: State, fd: nat, td: nat, e: nat): Option<State> {
    if !HasTable(s, fd) || !HasTable(s, td) || e >= 1024 || Entry(s, td, e) != Absent then None
    else
      var s0 := Inherit(s, fd, td, e);
      match Entry(s0, fd, e)
      case Absent => Some(s0)
      case Present(_, _, _) => MapBoth(s0, fd, td, e)
      case Swapped(k) =>
        match SwapIn(s0, fd, e)
        case None => None
        case Some(s1) => if HasTable(s1, td) then Some(Retarget(s1, td, e, Swapped(k))) else None
  }

  /** One turn of free_page_tables' inner loop. */
  function ClearEntry(s: State, d: nat, e: nat): Option<State> {
    if HasTable(s, d) && e < 1024 then Some(Retarget(s, d, e, Absent)) else None
  }

  predicate IsClean(p: Pte) {
    p.Present? && !p.dirty
  }

  /** Memory below LOW_MEM, the kernel's own page tables included, is not touched. */
  ghost predicate SameLow(s: State, s': State) {
    forall f: nat | f < LOWF :: s'.mem[f] == s.mem[f]
  }

  /** What all steps that touch one entry leave alone: every other page is seen as before,
      and no other page becomes droppable. */
  ghost predicate OthersSee(s: State, s': State, d: nat, e: nat) {
    && s'.dir == s.dir && SameLow(s, s')
    && (forall d': nat, e': nat | User(d', e') && (d' != d || e' != e) ::
          && View(s', d', e') == View(s, d', e')
          && (IsClean(Entry(s', d', e')) ==> IsClean(Entry(s, d', e')) && Entry(s', d', e').pfn == Entry(s, d', e').pfn)
          && ImageOf(s', d', e') == ImageOf(s, d', e'))
  }

  /** The page at (d, e) of s is the page at (d0, e) of s0; or that was a clean page unlike its
      image, and it now reads as the image. No other page is lost, and none becomes droppable. */
  ghost predicate Kept(s0: State, d0: nat, s: State, d: nat, e: nat) {
    && (View(s, d, e) == View(s0, d0, e) || (!BackedAt(s0, d0, e) && View(s, d, e) == ImageOf(s0, d0, e)))
    && (BackedAt(s0, d0, e) ==> BackedAt(s, d, e))
  }

  lemma KeptTrans(s0: State, d0: nat, s1: State, d1: nat, s2: State, d2: nat, e: nat)
    requires Kept(s0, d0, s1, d1, e) && Kept(s1, d1, s2, d2, e) && ImageOf(s1, d1, e) == ImageOf(s0, d0, e)
    ensures Kept(s0, d0, s2, d2, e)
  {
  }

  lemma OthersKept(s: State, s': State, d: nat, e: nat, d': nat, e': nat)
    requires OthersSee(s, s', d, e) && User(d', e') && (d' != d || e' != e)
    ensures Kept(s, d', s', d', e')
  {
  }

  ghost predicate SamePlaces(s: State, s': State) {
    forall d': nat | FIRST_VM_DIR <= d' < 1024 :: HasTable(s', d') == HasTable(s, d')
  }

  lemma UserTable(s: State, d: nat)
    requires Shape(s) && FIRST_VM_DIR <= d < 1024
    ensures HasTable(s, d) == s.dir[d].Some?
  {
  }

  lemma RetargetView(s: State, d: nat, e: nat, q: Pte)
    requires Inv(s) && User(d, e) && HasTable(s, d) && MayRetarget(s, d, e, q)
    ensures OthersSee(s, Retarget(s, d, e, q), d, e)
    ensures View(Retarget(s, d, e, q), d, e) ==
      match q case Absent => ImageOf(s, d, e) case Swapped(k) => s.swap[k] case Present(f, _, _) => s.mem[f].page
  {
    RetargetEntries(s, d, e, q);
    var s' := Retarget(s, d, e, q);
    forall d': nat, e': nat | User(d', e') && (d' != d || e' != e)
      ensures View(s', d', e') == View(s, d', e') && Entry(s', d', e') == Entry(s, d', e')
    {
      if Entry(s, d', e').Present? { assert GoodPte(s, Entry(s, d', e')); }
    }
  }

  lemma SetBytesView(s: State, f: nat, page: Page)
    requires Inv(s) && f < TOTALF && s.mem[f].Bytes?
    ensures forall d: nat, e: nat | User(d, e) ::
      View(SetBytes(s, f, page), d, e) == if Maps(Entry(s, d, e), f) then page else View(s, d, e)
  {
    SetBytesInv(s, f, page);
  }

  lemma TakePageInv(s: State)
    requires Inv(s) && TakePage(s).Some?
    ensures Inv(TakePage(s).value) && TakenFrame(s) in TakePage(s).value.held
    ensures TakePage(s).value.mem[TakenFrame(s)].Bytes?
    ensures Managed(s, TakenFrame(s)) && LOWF <= TakenFrame(s) < TOTALF
    ensures forall d: nat, e: nat | User(d, e) :: View(TakePage(s).value, d, e) == View(s, d, e)
    ensures forall d: nat, e: nat | FIRST_VM_DIR <= d < 1024 ::
      Entry(TakePage(s).value, d, e) == Entry(s, d, e) && !Maps(Entry(s, d, e), TakenFrame(s))
    ensures SamePlaces(s, TakePage(s).value) && SameLow(s, TakePage(s).value)
  {
    var f := TakenFrame(s);
    FreeIsManaged(s, f);
    GrabInv(s, f);
    var s' := Grab(s, f);
    forall d: nat | FIRST_VM_DIR <= d < 1024 ensures HasTable(s', d) == HasTable(s, d) {
      UserTable(s, d);
      UserTable(s', d);
    }
    forall d: nat, e: nat | User(d, e) ensures View(s', d, e) == View(s, d, e) {
      assert Entry(s', d, e) == Entry(s, d, e);
      if Entry(s, d, e).Present? { assert GoodPte(s, Entry(s, d, e)); }
    }
  }

  /** A new, empty page table is seen by nobody. */
  lemma NewTableStep(s: State, d: nat)
    requires Inv(s) && TakePage(s).Some? && FIRST_VM_DIR <= d < 1024 && s.dir[d].None?
    ensures var s' := NewTable(TakePage(s).value, d, TakenFrame(s));
      && Inv(s') && HasTable(s', d) && s'.image == s.image && SameLow(s, s')
      && (forall d': nat, e: nat | FIRST_VM_DIR <= d' < 1024 :: Entry(s', d', e) == Entry(s, d', e))
      && (forall d': nat, e: nat | User(d', e) :: View(s', d', e) == View(s, d', e))
  {
    TakePageInv(s);
    var s1 := TakePage(s).value;
    NewTableInv(s1, d, TakenFrame(s));
    NewTableView(s1, d, TakenFrame(s));
  }

  lemma NewTableView(s: State, d: nat, f: nat)
    requires Inv(s) && f in s.held && FIRST_VM_DIR <= d < 1024 && s.dir[d].None?
    requires forall d': nat, e: nat | FIRST_VM_DIR <= d' < 1024 :: Entry(NewTable(s, d, f), d', e) == Entry(s, d', e)
    ensures forall d': nat, e: nat | User(d', e) :: View(NewTable(s, d, f), d', e) == View(s, d', e)
  {
    var s' := NewTable(s, d, f);
    forall d': nat, e: nat | User(d', e) ensures View(s', d', e) == View(s, d', e) {
      assert Entry(s', d', e) == Entry(s, d', e);
      if Entry(s, d', e).Present? {
        assert GoodPte(s, Entry(s, d', e));
        if Maps(Entry(s, d', e), f) { HeldUse(s, f, AsPage(d', e)); }
      }
    }
  }

  /** A fresh frame filled with `page`, ready to be mapped. */
  lemma FreshPage(s: State, page: Page)
    requires Inv(s) && TakePage(s).Some?
    ensures var s2 := SetBytes(TakePage(s).value, TakenFrame(s), page);
      && Inv(s2) && TakenFrame(s) in s2.held && s2.mem[TakenFrame(s)] == Bytes(page) && Managed(s2, TakenFrame(s))
      && SamePlaces(s, s2) && SameLow(s, s2) && s2.dir == s.dir && s2.image == s.image
      && (forall d: nat, e: nat | User(d, e) :: View(s2, d, e) == View(s, d, e))
      && (forall d: nat, e: nat | FIRST_VM_DIR <= d < 1024 :: Entry(s2, d, e) == Entry(s, d, e))
  {
    TakePageInv(s);
    var s1 := TakePage(s).value;
    var f := TakenFrame(s);
    SetBytesInv(s1, f, page);
    SetBytesView(s1, f, page);
    var s2 := SetBytes(s1, f, page);
    forall d: nat | FIRST_VM_DIR <= d < 1024 ensures HasTable(s2, d) == HasTable(s, d) {
      UserTable(s, d);
      UserTable(s2, d);
    }
  }

  /** Eviction keeps every invariant; it loses nothing when the page is dirty or backed. */
  lemma EvictStep(s: State, d: nat, e: nat)
    requires Inv(s) && User(d, e) && Evict(s, d, e).Some?
    ensures Inv(Evict(s, d, e).value) && OthersSee(s, Evict(s, d, e).value, d, e)
    ensures BackedAt(s, d, e) ==> View(Evict(s, d, e).value, d, e) == View(s, d, e)
    ensures IsClean(Entry(s, d, e)) ==>
      Entry(Evict(s, d, e).value, d, e) == Absent && View(Evict(s, d, e).value, d, e) == ImageOf(s, d, e)
    ensures !Entry(Evict(s, d, e).value, d, e).Present? && Entry(s, d, e).Present?
    ensures Evict(s, d, e).value.image == s.image
    ensures forall d', e' | FIRST_VM_DIR <= d' < 1024 && !(d' == d && e' == e) ::
      Entry(Evict(s, d, e).value, d', e') == Entry(s, d', e')
    ensures forall f: nat | f < TOTALF && s.mem[f].Bytes? :: Evict(s, d, e).value.mem[f] == s.mem[f]
  {
    var p := Entry(s, d, e);
    assert GoodPte(s, p);
    if !p.dirty {
      RetargetInv(s, d, e, Absent);
      RetargetView(s, d, e, Absent);
      RetargetEntries(s, d, e, Absent);
    } else {
      var k := FirstSlot(s.bits, 1).value;
      var s1 := s.(swap := s.swap[k := s.mem[p.pfn].page]);
      SwapWrite(s, k, s.mem[p.pfn].page);
      RetargetInv(s1, d, e, Swapped(k));
      RetargetView(s1, d, e, Swapped(k));
      RetargetEntries(s1, d, e, Swapped(k));
      assert Evict(s, d, e).value == Retarget(s1, d, e, Swapped(k));
    }
  }

  /** Writing a free slot of the swap device is seen by nobody. */
  lemma SwapWrite(s: State, k: nat, page: Page)
    requires Inv(s) && k < SWAP_SLOTS && s.bits[k]
    ensures Inv(s.(swap := s.swap[k := page]))
    ensures forall d: nat, e: nat :: Entry(s.(swap := s.swap[k := page]), d, e) == Entry(s, d, e)
    ensures forall d: nat, e: nat | User(d, e) :: View(s.(swap := s.swap[k := page]), d, e) == View(s, d, e)
  {
    var s' := s.(swap := s.swap[k := page]);
    NotSpecific(s, s');
    forall d: nat, e: nat | User(d, e) ensures View(s', d, e) == View(s, d, e) {
      if Entry(s, d, e) == Swapped(k) { assert HoldsSlot(s, d, e, k); }
    }
  }

  /** The invariants do not look at swap contents or images. */
  lemma NotSpecific(s: State, s': State)
    requires Inv(s) && s' == s.(swap := s'.swap, image := s'.image)
    ensures Inv(s')
    ensures forall d: nat, e: nat :: Entry(s', d, e) == Entry(s, d, e)
  {
    forall f: nat, u: Use ensures Uses(s', u, f) == Uses(s, u, f) {}
    forall f: nat | LOWF <= f < TOTALF ensures Count(s', f) == if Managed(s', f) then |Refs(s', f)| else USED {
      CountStep(s, s', AsTable(0), f);
    }
    forall f: nat, u: Use, v: Use | LOWF <= f && Uses(s', u, f) && Uses(s', v, f) && u != v
      ensures Compatible(s', u, v)
    {
      assert Compatible(s, u, v);
    }
    SlotsFrame(s, s');
  }

  lemma InstallStep(s: State, d: nat, e: nat, page: Page, dirty: bool)
    requires Inv(s) && User(d, e) && InstallPage(s, d, e, page, dirty).Some?
    ensures Inv(InstallPage(s, d, e, page, dirty).value) && OthersSee(s, InstallPage(s, d, e, page, dirty).value, d, e)
    ensures View(InstallPage(s, d, e, page, dirty).value, d, e) == page
    ensures InstallPage(s, d, e, page, dirty).value.image == s.image
    ensures Entry(InstallPage(s, d, e, page, dirty).value, d, e) == Present(TakenFrame(s), true, dirty)
  {
    FreshPage(s, page);
    var s2 := SetBytes(TakePage(s).value, TakenFrame(s), page);
    var q := Present(TakenFrame(s), true, dirty);
    assert InstallPage(s, d, e, page, dirty) == Some(Retarget(s2, d, e, q));
    RetargetInv(s2, d, e, q);
    RetargetView(s2, d, e, q);
    RetargetEntries(s2, d, e, q);
  }

  lemma SwapInStep(s: State, d: nat, e: nat)
    requires Inv(s) && User(d, e) && SwapIn(s, d, e).Some?
    ensures Inv(SwapIn(s, d, e).value) && OthersSee(s, SwapIn(s, d, e).value, d, e)
    ensures View(SwapIn(s, d, e).value, d, e) == View(s, d, e)
    ensures Entry(SwapIn(s, d, e).value, d, e) == Present(TakenFrame(s), true, true)
    ensures SlotReturned(s, Entry(s, d, e), SwapIn(s, d, e).value) && SwapIn(s, d, e).value.image == s.image
    ensures forall d', e' | FIRST_VM_DIR <= d' < 1024 && !(d' == d && e' == e) ::
      Entry(SwapIn(s, d, e).value, d', e') == Entry(s, d', e')
    ensures SamePlaces(s, SwapIn(s, d, e).value)
  {
    var k := Entry(s, d, e).slot;
    assert HoldsSlot(s, d, e, k);
    FreshPage(s, s.swap[k]);
    var s2 := SetBytes(TakePage(s).value, TakenFrame(s), s.swap[k]);
    var q := Present(TakenFrame(s), true, true);
    assert SwapIn(s, d, e) == Some(Retarget(s2, d, e, q));
    RetargetInv(s2, d, e, q);
    RetargetView(s2, d, e, q);
    RetargetEntries(s2, d, e, q);
  }

  predicate SlotReturned(s: State, p: Pte, s': State) {
    p.Swapped? && p.slot < SWAP_SLOTS && s'.bits[p.slot] && s'.swap == s.swap && s'.usable == s.usable
  }

  /** A sole owner found by its count really is the only use of the frame. */
  lemma SoleOwner(s: State, d: nat, e: nat, u: Use)
    requires Inv(s) && User(d, e) && Entry(s, d, e).Present? && LOWF <= Entry(s, d, e).pfn < TOTALF
    requires Count(s, Entry(s, d, e).pfn) == 1 && Uses(s, u, Entry(s, d, e).pfn)
    ensures u == AsPage(d, e)
  {
    var f := Entry(s, d, e).pfn;
    var a := AsPage(d, e);
    assert GoodPte(s, Entry(s, d, e));
    InRefs(s, a, f);
    InRefs(s, u, f);
    var rest := Refs(s, f) - {a};
    assert Refs(s, f) == rest + {a};
    assert rest == {};
  }

  lemma UnshareStep(s: State, d: nat, e: nat, copy: bool)
    requires Inv(s) && User(d, e) && Unshare(s, d, e, copy).Some?
    ensures Inv(Unshare(s, d, e, copy).value) && OthersSee(s, Unshare(s, d, e, copy).value, d, e)
    ensures View(Unshare(s, d, e, copy).value, d, e) == View(s, d, e)
    ensures IsRw(Entry(Unshare(s, d, e, copy).value, d, e))
  {
    var p := Entry(s, d, e);
    assert GoodPte(s, p);
    if copy {
      FreshPage(s, s.mem[p.pfn].page);
      var s2 := SetBytes(TakePage(s).value, TakenFrame(s), s.mem[p.pfn].page);
      var q := Present(TakenFrame(s), true, false);
      RetargetInv(s2, d, e, q);
      RetargetView(s2, d, e, q);
      RetargetEntries(s2, d, e, q);
    } else {
      var q := Present(p.pfn, true, p.dirty);
      forall u | Uses(s, u, p.pfn) ensures u == AsPage(d, e) { SoleOwner(s, d, e, u); }
      RetargetInv(s, d, e, q);
      RetargetView(s, d, e, q);
      RetargetEntries(s, d, e, q);
    }
  }

  /** A writable entry is the only use of its frame: its writer disturbs nobody. */
  lemma WritableIsSole(s: State, d: nat, e: nat, u: Use)
    requires Inv(s) && User(d, e) && IsRw(Entry(s, d, e)) && Uses(s, u, Entry(s, d, e).pfn)
    ensures u == AsPage(d, e) && LOWF <= Entry(s, d, e).pfn < TOTALF
  {
    var f := Entry(s, d, e).pfn;
    assert GoodPte(s, Entry(s, d, e));
    assert Uses(s, AsPage(d, e), f);
    assert u == AsPage(d, e) || Compatible(s, u, AsPage(d, e));
  }

  lemma StoreByteStep(s: State, d: nat, e: nat, i: nat, b: nat)
    requires Inv(s) && User(d, e) && StoreByte(s, d, e, i, b).Some?
    ensures Inv(StoreByte(s, d, e, i, b).value) && OthersSee(s, StoreByte(s, d, e, i, b).value, d, e)
    ensures View(StoreByte(s, d, e, i, b).value, d, e) == View(s, d, e)[i := b]
    ensures Entry(StoreByte(s, d, e, i, b).value, d, e) == Entry(s, d, e).(dirty := true)
  {
    var f := Entry(s, d, e).pfn;
    var page := s.mem[f].page[i := b];
    var s1 := SetBytes(s, f, page);
    WritableIsSole(s, d, e, AsPage(d, e));
    SetBytesInv(s, f, page);
    SetBytesView(s, f, page);
    var q := Present(f, true, true);
    forall u | Uses(s1, u, f) ensures u == AsPage(d, e) { WritableIsSole(s1, d, e, u); }
    forall d': nat, e': nat | User(d', e') && Maps(Entry(s, d', e'), f) ensures d' == d && e' == e {
      WritableIsSole(s, d, e, AsPage(d', e'));
    }
    RetargetInv(s1, d, e, q);
    RetargetView(s1, d, e, q);
    RetargetEntries(s1, d, e, q);
  }

  /** All mappings of the frame show the new byte, those below LOW_MEM the kernel's own too; one
      entry becomes dirty, and the invariants hold. */
  lemma KernelStoreStep(s: State, d: nat, e: nat, i: nat, b: nat)
    requires Inv(s) && User(d, e) && KernelStore(s, d, e, i, b).Some?
    ensures var f, s' := Entry(s, d, e).pfn, KernelStore(s, d, e, i, b).value;
      && f < TOTALF && s.mem[f].Bytes? && i < 4096 && s.mem[f].page == View(s, d, e)
      && Inv(s') && s'.dir == s.dir && s'.image == s.image && s'.mem[f] == Bytes(View(s, d, e)[i := b])
      && (forall g: nat | g < LOWF && g != f :: s'.mem[g] == s.mem[g])
      && (forall d', e' | FIRST_VM_DIR <= d' < 1024 ::
            Entry(s', d', e') == if d' == d && e' == e then Entry(s, d, e).(dirty := true) else Entry(s, d', e'))
      && (forall d': nat, e': nat | User(d', e') ::
            View(s', d', e') == if Maps(Entry(s, d', e'), f) then View(s, d, e)[i := b] else View(s, d', e'))
  {
    var p := Entry(s, d, e);
    var f := p.pfn;
    assert GoodPte(s, p);
    var page := s.mem[f].page[i := b];
    var s1 := SetBytes(s, f, page);
    SetBytesInv(s, f, page);
    SetBytesView(s, f, page);
    MayDirty(s1, d, e);
    RetargetInv(s1, d, e, p.(dirty := true));
    RetargetView(s1, d, e, p.(dirty := true));
    RetargetEntries(s1, d, e, p.(dirty := true));
    UserTable(s1, d);
  }

  lemma MayDirty(s: State, d: nat, e: nat)
    requires Inv(s) && User(d, e) && Entry(s, d, e).Present?
    ensures MayRetarget(s, d, e, Entry(s, d, e).(dirty := true))
  {
    var p := Entry(s, d, e);
    assert GoodPte(s, p);
    forall u | p.pfn >= LOWF && Uses(s, u, p.pfn) && u != AsPage(d, e)
      ensures u.AsPage? && !p.rw && !IsRw(Entry(s, u.d, u.e)) && u.d % TASK_DIRS == d % TASK_DIRS && u.e == e
    {
      assert Uses(s, AsPage(d, e), p.pfn);
      assert Compatible(s, u, AsPage(d, e));
    }
  }

  /** Write-protecting an entry changes nothing that anybody sees. */
  lemma ProtectStep(s: State, d: nat, e: nat)
    requires Inv(s) && User(d, e) && HasTable(s, d) && Entry(s, d, e).Present? && Entry(s, d, e).pfn >= LOWF
    ensures var p := Writable(Entry(s, d, e), false);
      var s1 := Retarget(s, d, e, p);
      && Inv(s1) && OthersSee(s, s1, d, e) && View(s1, d, e) == View(s, d, e)
      && SamePlaces(s, s1)
      && (forall d', e' | FIRST_VM_DIR <= d' < 1024 ::
            Entry(s1, d', e') == if d' == d && e' == e then p else Entry(s, d', e'))
  {
    var p := Writable(Entry(s, d, e), false);
    assert GoodPte(s, Entry(s, d, e));
    forall u | Uses(s, u, p.pfn) && u != AsPage(d, e)
      ensures u.AsPage? && !IsRw(Entry(s, u.d, u.e)) && u.d % TASK_DIRS == d % TASK_DIRS && u.e == e
    {
      assert Uses(s, AsPage(d, e), p.pfn);
      assert Compatible(s, u, AsPage(d, e));
    }
    RetargetInv(s, d, e, p);
    RetargetView(s, d, e, p);
    RetargetEntries(s, d, e, p);
  }

  /** A read-only page of fd, or one below LOW_MEM, may be mapped at the same place of td. */
  lemma MayMapToo(s: State, fd: nat, td: nat, e: nat, p: Pte)
    requires Inv(s) && User(td, e) && fd < 1024 && fd % TASK_DIRS == td % TASK_DIRS && p.Present? && !p.rw
    requires p.pfn < TOTALF
    requires if p.pfn < LOWF then s.mem[p.pfn].Bytes? else fd >= FIRST_VM_DIR && e < 1024 && Entry(s, fd, e) == p
    ensures MayRetarget(s, td, e, p)
  {
    if p.pfn >= LOWF {
      assert GoodPte(s, Entry(s, fd, e));
      forall u | Uses(s, u, p.pfn) && u != AsPage(td, e)
        ensures u.AsPage? && !IsRw(Entry(s, u.d, u.e)) && u.d % TASK_DIRS == td % TASK_DIRS && u.e == e
      {
        assert Uses(s, AsPage(fd, e), p.pfn);
        assert u == AsPage(fd, e) || Compatible(s, u, AsPage(fd, e));
      }
    }
  }

  lemma MapBothStep(s: State, fd: nat, td: nat, e: nat)
    requires Inv(s) && User(td, e) && fd < 1024 && fd % TASK_DIRS == td % TASK_DIRS && MapBoth(s, fd, td, e).Some?
    requires fd >= FIRST_VM_DIR || (Entry(s, fd, e).pfn < LOWF && s.mem[Entry(s, fd, e).pfn].Bytes?)
    ensures Inv(MapBoth(s, fd, td, e).value) && OthersSee(s, MapBoth(s, fd, td, e).value, td, e)
    ensures View(MapBoth(s, fd, td, e).value, td, e) == View(s, fd, e)
    ensures MapBoth(s, fd, td, e).value.image == s.image
    ensures Entry(MapBoth(s, fd, td, e).value, td, e) == Writable(Entry(s, fd, e), false)
    ensures forall d', e' | FIRST_VM_DIR <= d' < 1024 && !(d' == td && e' == e) ::
      Entry(MapBoth(s, fd, td, e).value, d', e') ==
        if d' == fd && e' == e && Entry(s, fd, e).pfn >= LOWF then Writable(Entry(s, fd, e), false) else
          Entry(s, d', e')
  {
    var p := Writable(Entry(s, fd, e), false);
    var s1 := if p.pfn >= LOWF then Retarget(s, fd, e, p) else s;
    if fd >= FIRST_VM_DIR { assert GoodPte(s, Entry(s, fd, e)); }
    if p.pfn >= LOWF { ProtectStep(s, fd, e); }
    MayMapToo(s1, fd, td, e, p);
    RetargetInv(s1, td, e, p);
    RetargetView(s1, td, e, p);
    RetargetEntries(s1, td, e, p);
  }

  /** The parent's slot goes to the child once the parent has the page back in memory. */
  lemma HandOverSlot(s: State, fd: nat, td: nat, e: nat)
    requires Inv(s) && User(td, e) && User(fd, e) && fd != td && SwapIn(s, fd, e).Some? && HasTable(s, td)
    requires Entry(s, td, e) == Absent
    ensures var s1 := SwapIn(s, fd, e).value;
      && HasTable(s1, td)
      && var s2 := Retarget(s1, td, e, Entry(s, fd, e));
      && Inv(s2) && OthersSee(s1, s2, td, e) && View(s2, td, e) == View(s, fd, e) && s2.image == s.image
      && (forall d', e' | FIRST_VM_DIR <= d' < 1024 :: Entry(s2, d', e') ==
            if d' == td && e' == e then Entry(s, fd, e) else Entry(s1, d', e'))
  {
    SwapInStep(s, fd, e);
    var s1 := SwapIn(s, fd, e).value;
    var q := Entry(s, fd, e);
    assert HoldsSlot(s, fd, e, q.slot);
    RetargetInv(s1, td, e, q);
    RetargetView(s1, td, e, q);
    RetargetEntries(s1, td, e, q);
  }

  ghost predicate CopySource(s: State, fd: nat, e: nat) {
    fd < 1024 && (fd >= FIRST_VM_DIR || (Entry(s, fd, e).Present? && Entry(s, fd, e).pfn < LOWF &&
        s.mem[Entry(s, fd, e).pfn].Bytes?))
  }

  /** What one turn of the copy loop guarantees: the child's page is the parent's. */
  ghost predicate Copied(s: State, s': State, fd: nat, td: nat, e: nat) {
    && Inv(s') && OthersSee(s, s', td, e)
    && s'.image == Inherit(s, fd, td, e).image
    && View(s', td, e) == View(s, fd, e)
    && !IsRw(Entry(s', td, e))
    && (BackedAt(s, fd, e) ==> BackedAt(s', td, e))
  }

  lemma InheritStep(s: State, fd: nat, td: nat, e: nat)
    requires Inv(s) && User(td, e) && fd < 1024
    ensures Inv(Inherit(s, fd, td, e)) && OthersSee(s, Inherit(s, fd, td, e), td, e)
    ensures forall d', e' :: Entry(Inherit(s, fd, td, e), d', e') == Entry(s, d', e')
    ensures Entry(s, fd, e).Present? || fd != td ==> View(Inherit(s, fd, td, e), fd, e) == View(s, fd, e)
    ensures ImageOf(Inherit(s, fd, td, e), td, e) == ImageOf(s, fd, e)
  {
    NotSpecific(s, Inherit(s, fd, td, e));
  }

  lemma CopyPresent(s: State, fd: nat, td: nat, e: nat)
    requires Inv(s) && User(td, e) && CopySource(s, fd, e) && fd != td && fd % TASK_DIRS == td % TASK_DIRS
    requires CopyEntry(s, fd, td, e).Some? && Entry(s, fd, e).Present?
    ensures Copied(s, CopyEntry(s, fd, td, e).value, fd, td, e)
    ensures forall d', e' | FIRST_VM_DIR <= d' < 1024 && e' < 1024 && (e' != e || (d' != fd && d' != td)) ::
      Entry(CopyEntry(s, fd, td, e).value, d', e') == Entry(s, d', e')
  {
    InheritStep(s, fd, td, e);
    MapBothStep(Inherit(s, fd, td, e), fd, td, e);
  }

  lemma CopySwapped(s: State, fd: nat, td: nat, e: nat)
    requires Inv(s) && User(td, e) && CopySource(s, fd, e) && fd != td && fd % TASK_DIRS == td % TASK_DIRS
    requires CopyEntry(s, fd, td, e).Some? && Entry(s, fd, e).Swapped?
    ensures Copied(s, CopyEntry(s, fd, td, e).value, fd, td, e)
    ensures forall d', e' | FIRST_VM_DIR <= d' < 1024 && e' < 1024 && (e' != e || (d' != fd && d' != td)) ::
      Entry(CopyEntry(s, fd, td, e).value, d', e') == Entry(s, d', e')
  {
    InheritStep(s, fd, td, e);
    var s0 := Inherit(s, fd, td, e);
    HandOverSlot(s0, fd, td, e);
    SwapInStep(s0, fd, e);
    var s1 := SwapIn(s0, fd, e).value;
    assert CopyEntry(s, fd, td, e) == Some(Retarget(s1, td, e, Entry(s0, fd, e)));
  }

  lemma CopyEntryStep(s: State, fd: nat, td: nat, e: nat)
    requires Inv(s) && User(td, e) && CopySource(s, fd, e) && fd != td && fd % TASK_DIRS == td % TASK_DIRS
    requires CopyEntry(s, fd, td, e).Some?
    ensures Copied(s, CopyEntry(s, fd, td, e).value, fd, td, e)
    ensures forall d', e' | FIRST_VM_DIR <= d' < 1024 && e' < 1024 && (e' != e || (d' != fd && d' != td)) ::
      Entry(CopyEntry(s, fd, td, e).value, d', e') == Entry(s, d', e')
  {
    match Entry(s, fd, e)
    case Absent => InheritStep(s, fd, td, e);
    case Present(_, _, _) => CopyPresent(s, fd, td, e);
    case Swapped(_) => CopySwapped(s, fd, td, e);
  }

  lemma ClearEntryStep(s: State, d: nat, e: nat)
    requires Inv(s) && User(d, e) && ClearEntry(s, d, e).Some?
    ensures Inv(ClearEntry(s, d, e).value) && OthersSee(s, ClearEntry(s, d, e).value, d, e)
    ensures Entry(ClearEntry(s, d, e).value, d, e) == Absent
    ensures forall d', e' | FIRST_VM_DIR <= d' < 1024 && !(d' == d && e' == e) ::
      Entry(ClearEntry(s, d, e).value, d', e') == Entry(s, d', e')
  {
    RetargetInv(s, d, e, Absent);
    RetargetView(s, d, e, Absent);
    RetargetEntries(s, d, e, Absent);
  }
}
