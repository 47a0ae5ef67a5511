/** get_free_page with reclaim, and what goes wrong when the reclaimer picks the very entry
    its caller is working on. */
module PagingReclaim {
  import opened Wrappers
  import opened PagingState
  import opened PagingOps
  import opened PagingSteps

  /** The evictions get_free_page makes: one swap_out after the other while no frame is free. */
  function Reclaims(s: State, vs: seq<(nat, nat)>): Option<State>
    decreases |vs|
  {
    if vs == [] then Some(s)
    else if TakePage(s).Some? || !User(vs[0].0, vs[0].1) then None
    else match Evict(s, vs[0].0, vs[0].1)
      case None => None
      case Some(s1) => Reclaims(s1, vs[1..])
  }

  lemma {:induction false} ReclaimsAppend(s: State, vs: seq<(nat, nat)>, d: nat, e: nat)
    requires Reclaims(s, vs).Some?
    ensures Reclaims(s, vs + [(d, e)]) ==
      if TakePage(Reclaims(s, vs).value).Some? || !User(d, e) then None else Evict(Reclaims(s, vs).value, d, e)
    decreases |vs|
  {
    if vs == [] {
      assert vs + [(d, e)] == [(d, e)];
    } else {
      assert (vs + [(d, e)])[1..] == vs[1..] + [(d, e)];
      ReclaimsAppend(Evict(s, vs[0].0, vs[0].1).value, vs[1..], d, e);
    }
  }

  /** Only the evicted entries change; those were present and no longer are. */
  ghost predicate Reclaimed(s: State, s': State, vs: seq<(nat, nat)>) {
    && s'.dir == s.dir && s'.image == s.image && s'.held == s.held && SameLow(s, s') && s'.start == s.start &&
      s'.high == s.high
    && (forall f: nat | f < TOTALF && s.mem[f].Bytes? :: s'.mem[f] == s.mem[f])
    && (forall d: nat, e: nat | User(d, e) ::
          if (d, e) in vs then !Entry(s', d, e).Present? && Entry(s, d, e).Present? && Entry(s, d, e).pfn >= LOWF
          else Entry(s', d, e) == Entry(s, d, e))
  }

  lemma ReclaimedOne(s: State, d: nat, e: nat)
    requires Inv(s) && User(d, e) && Evict(s, d, e).Some?
    ensures Inv(Evict(s, d, e).value) && Reclaimed(s, Evict(s, d, e).value, [(d, e)])
    ensures AllKept(s, Evict(s, d, e).value)
  {
    EvictStep(s, d, e);
    var s1 := Evict(s, d, e).value;
    forall d': nat, e': nat | User(d', e') ensures Kept(s, d', s1, d', e') {
      if (d', e') != (d, e) { OthersKept(s, s1, d, e, d', e'); }
    }
  }

  /** Every user page is kept, but for clean ones unlike their image. */
  ghost predicate AllKept(s: State, s': State) {
    forall d: nat, e: nat | User(d, e) :: Kept(s, d, s', d, e)
  }

  lemma AllKeptTrans(s: State, s1: State, s2: State)
    requires AllKept(s, s1) && AllKept(s1, s2) && s1.image == s.image
    ensures AllKept(s, s2)
  {
    forall d: nat, e: nat | User(d, e) ensures Kept(s, d, s2, d, e) { KeptTrans(s, d, s1, d, s2, d, e); }
  }

  /** Where all clean pages equal their image, keeping is keeping. */
  lemma KeptBacked(s: State, s': State)
    requires AllKept(s, s')
    ensures Backed(s) ==> Backed(s') && SameViews(s, s')
  {
    if Backed(s) {
      forall d: nat, e: nat | User(d, e) ensures BackedAt(s', d, e) && View(s', d, e) == View(s, d, e) {
        assert BackedAt(s, d, e) && Kept(s, d, s', d, e);
      }
    }
  }

  ghost predicate SameViews(s: State, s': State) {
    forall d: nat, e: nat | User(d, e) :: View(s', d, e) == View(s, d, e)
  }

  lemma ReclaimedThen(s: State, s1: State, s2: State, d: nat, e: nat, rest: seq<(nat, nat)>)
    requires Reclaimed(s, s1, [(d, e)]) && Reclaimed(s1, s2, rest) && User(d, e)
    ensures Reclaimed(s, s2, [(d, e)] + rest)
  {
    forall d': nat, e': nat | User(d', e')
      ensures if (d', e') in [(d, e)] + rest then !Entry(s2, d', e').Present? && Entry(s, d', e').Present? &&
          Entry(s, d', e').pfn >= LOWF
              else Entry(s2, d', e') == Entry(s, d', e')
    {
      assert (d', e') in [(d, e)] + rest <==> (d', e') == (d, e) || (d', e') in rest;
      if (d', e') == (d, e) { assert (d', e') in [(d, e)]; }
    }
  }

  /** Reclaim keeps the invariants and, of all pages, loses none but clean ones unlike their
      image: with clean pages backed, nobody sees it. */
  lemma {:induction false} ReclaimsKeep(s: State, vs: seq<(nat, nat)>)
    requires Inv(s) && Reclaims(s, vs).Some?
    ensures Inv(Reclaims(s, vs).value) && Reclaimed(s, Reclaims(s, vs).value, vs)
    ensures AllKept(s, Reclaims(s, vs).value)
    ensures Backed(s) ==> Backed(Reclaims(s, vs).value) && SameViews(s, Reclaims(s, vs).value)
    decreases |vs|
  {
    if vs != [] {
      var d, e := vs[0].0, vs[0].1;
      ReclaimedOne(s, d, e);
      var s1 := Evict(s, d, e).value;
      ReclaimsKeep(s1, vs[1..]);
      ReclaimedThen(s, s1, Reclaims(s, vs).value, d, e, vs[1..]);
      AllKeptTrans(s, s1, Reclaims(s, vs).value);
      assert vs == [(d, e)] + vs[1..];
    }
    KeptBacked(s, Reclaims(s, vs).value);
  }

  /** A page is lost exactly if reclaim picks it while it is clean and unlike its image. */
  lemma ReclaimLosesIff(s: State, vs: seq<(nat, nat)>, d: nat, e: nat)
    requires Inv(s) && Reclaims(s, vs).Some? && User(d, e)
    ensures View(Reclaims(s, vs).value, d, e) != View(s, d, e) <==> (d, e) in vs && !BackedAt(s, d, e)
  {
    ReclaimsKeep(s, vs);
    var s' := Reclaims(s, vs).value;
    assert Kept(s, d, s', d, e);
    if (d, e) in vs && !BackedAt(s, d, e) {
      ReclaimedCleanIsAbsent(s, vs, d, e);
    }
    if (d, e) !in vs && Entry(s, d, e).Present? {
      assert GoodPte(s, Entry(s, d, e));
    }
  }

  /** mem_map holds unsigned bytes: decrementing 0 gives 255. */
  function ByteDec(m: MemMap, f: nat): MemMap {
    if LOWF <= f < TOTALF then m[f - LOWF := if m[f - LOWF] == 0 then 255 else m[f - LOWF] - 1] else m
  }

  /** un_wp_page as written: the old frame is read before get_free_page, which may reclaim
      the entries vs, and is given back and copied afterwards without another look. */
  function UnWpPage(s: State, d: nat, e: nat, vs: seq<(nat, nat)>): Option<State> {
    if !User(d, e) || !HasTable(s, d) || !Entry(s, d, e).Present? || Entry(s, d, e).pfn >= TOTALF then None
    else
      var was := Entry(s, d, e).pfn;
      if was >= LOWF && Count(s, was) == 1 then Unshare(s, d, e, false)
      else match Reclaims(s, vs)
        case None => None
        case Some(s1) =>
          match TakePage(s1)
          case None => None
          case Some(s2) =>
            CopyOver(s2, d, e, was, TakenFrame(s1))
  }

  /** The end of un_wp_page: give back `was`, copy it to f, and map f. */
  function CopyOver(s: State, d: nat, e: nat, was: nat, f: nat): Option<State>
    requires d < 1024 && e < 1024 && was < TOTALF && f < TOTALF
  {
    if !s.mem[was].Bytes? then None else
    var s1 := SetBytes(s, f, s.mem[was].page).(memMap := ByteDec(s.memMap, was), held := s.held - {f});
    if HasTable(s1, d) then Some(SetEntry(s1, d, e, Present(f, true, false))) else None
  }

  /** If reclaim leaves the entry alone, un_wp_page is reclaim followed by a clean copy. */
  lemma UnWpAvoiding(s: State, d: nat, e: nat, vs: seq<(nat, nat)>)
    requires Inv(s) && UnWpPage(s, d, e, vs).Some? && (d, e) !in vs
    requires !(Entry(s, d, e).pfn >= LOWF && Count(s, Entry(s, d, e).pfn) == 1)
    ensures Reclaims(s, vs).Some? && Unshare(Reclaims(s, vs).value, d, e, true) == UnWpPage(s, d, e, vs)
  {
    var was := Entry(s, d, e).pfn;
    assert GoodPte(s, Entry(s, d, e));
    ReclaimsKeep(s, vs);
    var s1 := Reclaims(s, vs).value;
    TakePageInv(s1);
    var s2 := TakePage(s1).value;
    var f := TakenFrame(s1);
    assert f != was;
    if was >= LOWF {
      InRefs(s2, AsPage(d, e), was);
      assert |Refs(s2, was)| > 0;
    }
    FreshPage(s1, s1.mem[was].page);
  }

  /** The uses of a frame after the held frame f is mapped at an entry that maps nothing. */
  lemma UsesAfterMap(s: State, s': State, d: nat, e: nat, f: nat, page: Page, g: nat)
    requires Inv(s) && User(d, e) && HasTable(s, d) && f in s.held && f < TOTALF && !Entry(s, d, e).Present?
    requires s' ==
      SetEntry(SetBytes(s, f, page), d, e, Present(f, true, false)).(memMap := s'.memMap, held := s.held - {f})
    ensures |Refs(s', g)| == |Refs(s, g)|
  {
    var s1 := SetBytes(s, f, page);
    SetBytesInv(s, f, page);
    forall d': nat | FIRST_VM_DIR <= d' < 1024 ensures s.dir[d'] != Some(f) {
      if s.dir[d'] == Some(f) { HeldUse(s, f, AsTable(d')); }
    }
    forall d', e' | FIRST_VM_DIR <= d' < 1024
      ensures Entry(s', d', e') == if d' == d && e' == e then Present(f, true, false) else Entry(s, d', e')
    {
      EntryAfterSet(s1, d, e, Present(f, true, false), d', e');
    }
    CountStep(s, s', AsPage(d, e), g);
  }

  lemma CopyOverUncounted(s: State, d: nat, e: nat, was: nat, f: nat)
    requires Inv(s) && User(d, e) && HasTable(s, d) && !Entry(s, d, e).Present? && f in s.held && Managed(s, was)
    requires CopyOver(s, d, e, was, f).Some?
    ensures !Exact(CopyOver(s, d, e, was, f).value)
  {
    var s' := CopyOver(s, d, e, was, f).value;
    UsesAfterMap(s, s', d, e, f, s.mem[was].page, was);
    CountBound(s, was);
    assert Count(s', was) != |Refs(s', was)|;
  }

  lemma UnWpUnfold(s: State, d: nat, e: nat, vs: seq<(nat, nat)>)
    requires UnWpPage(s, d, e, vs).Some? && !(Entry(s, d, e).pfn >= LOWF && Count(s, Entry(s, d, e).pfn) == 1)
    ensures User(d, e) && Entry(s, d, e).pfn < TOTALF && HasTable(s, d) && Entry(s, d, e).Present?
    ensures Reclaims(s, vs).Some? && TakePage(Reclaims(s, vs).value).Some?
    ensures UnWpPage(s, d, e, vs) ==
      CopyOver(TakePage(Reclaims(s, vs).value).value, d, e, Entry(s, d, e).pfn, TakenFrame(Reclaims(s, vs).value))
  {
  }

  lemma HitAfterReclaim(s: State, s1: State, d: nat, e: nat, vs: seq<(nat, nat)>)
    requires Inv(s) && Inv(s1) && Reclaimed(s, s1, vs) && (d, e) in vs && User(d, e) && TakePage(s1).Some?
    requires Entry(s, d, e).Present? && Entry(s, d, e).pfn < TOTALF
    requires CopyOver(TakePage(s1).value, d, e, Entry(s, d, e).pfn, TakenFrame(s1)).Some?
    ensures !Exact(CopyOver(TakePage(s1).value, d, e, Entry(s, d, e).pfn, TakenFrame(s1)).value)
  {
    assert GoodPte(s, Entry(s, d, e));
    TakePageInv(s1);
    var s2 := TakePage(s1).value;
    UserTable(s2, d);
    UserTable(s, d);
    assert s2.dir == s.dir;
    assert s2.start == s1.start && s2.high == s1.high;
    CopyOverUncounted(s2, d, e, Entry(s, d, e).pfn, TakenFrame(s1));
  }

  /** If reclaim evicted the entry, the old frame is given back twice: no frame count can be
      right afterwards for the old frame. */
  lemma UnWpHit(s: State, d: nat, e: nat, vs: seq<(nat, nat)>)
    requires Inv(s) && UnWpPage(s, d, e, vs).Some? && (d, e) in vs
    requires !(Entry(s, d, e).pfn >= LOWF && Count(s, Entry(s, d, e).pfn) == 1)
    ensures !Exact(UnWpPage(s, d, e, vs).value)
  {
    UnWpUnfold(s, d, e, vs);
    ReclaimsKeep(s, vs);
    HitAfterReclaim(s, Reclaims(s, vs).value, d, e, vs);
  }

  /** un_wp_page keeps the counts exact if and only if reclaim does not pick its own entry. */
  lemma UnWpExactIff(s: State, d: nat, e: nat, vs: seq<(nat, nat)>)
    requires Inv(s) && UnWpPage(s, d, e, vs).Some?
    requires !(Entry(s, d, e).pfn >= LOWF && Count(s, Entry(s, d, e).pfn) == 1)
    ensures Inv(UnWpPage(s, d, e, vs).value) <==> (d, e) !in vs
  {
    if (d, e) in vs {
      UnWpHit(s, d, e, vs);
    } else {
      UnWpAvoiding(s, d, e, vs);
      ReclaimsKeep(s, vs);
      UnshareStep(Reclaims(s, vs).value, d, e, true);
    }
  }

  /** What the caller can see before the call: get_free_page has a frame and reclaims nothing,
      or the page is one of the kernel's, which reclaim never picks. */
  predicate CannotHit(s: State, d: nat, e: nat) {
    TakePage(s).Some? || (Entry(s, d, e).Present? && Entry(s, d, e).pfn < LOWF)
  }

  lemma NotHit(s: State, d: nat, e: nat, vs: seq<(nat, nat)>)
    requires Inv(s) && User(d, e) && Reclaims(s, vs).Some? && CannotHit(s, d, e)
    ensures (d, e) !in vs
  {
    ReclaimsKeep(s, vs);
  }

  /** So the counts are right whenever a frame is free, or the page is below LOW_MEM. */
  lemma UnWpExactBefore(s: State, d: nat, e: nat, vs: seq<(nat, nat)>)
    requires Inv(s) && UnWpPage(s, d, e, vs).Some? && CannotHit(s, d, e)
    ensures Inv(UnWpPage(s, d, e, vs).value)
  {
    if Entry(s, d, e).pfn >= LOWF && Count(s, Entry(s, d, e).pfn) == 1 {
      UnshareStep(s, d, e, false);
    } else {
      NotHit(s, d, e, vs);
      UnWpExactIff(s, d, e, vs);
    }
  }

  /** try_to_share's last lines: the source entry is write-protected, its word is copied to
      the target, and the count of the frame read earlier goes up. */
  function ShareWords(s: State, fd: nat, d: nat, e: nat, phys: nat): Option<State>
    requires fd < 1024 && d < 1024 && e < 1024
  {
    if !HasTable(s, fd) || !HasTable(s, d) || Entry(s, d, e).Present? then None else
    var q := Writable(Entry(s, fd, e), false);
    var s1 := SetEntry(s, fd, e, q);
    if HasTable(s1, d) then Some(SetEntry(s1, d, e, q).(memMap := AddTo(s.memMap, phys, 1))) else None
  }

  /** try_to_share as written: the source word is read first, then a page table for the
      target may be allocated, and that may reclaim the entries vs. */
  function TryToShare(s: State, fd: nat, d: nat, e: nat, vs: seq<(nat, nat)>): Option<State> {
    if !User(fd, e) || !User(d, e) || !HasTable(s, fd) || !IsClean(Entry(s, fd, e)) ||
        !(LOWF <= Entry(s, fd, e).pfn < TOTALF) then None
    else if s.dir[d].Some? then ShareWords(s, fd, d, e, Entry(s, fd, e).pfn)
    else match Reclaims(s, vs)
      case None => None
      case Some(s1) =>
        match TakePage(s1)
        case None => None
        case Some(s2) => ShareWords(NewTable(s2, d, TakenFrame(s1)), fd, d, e, Entry(s, fd, e).pfn)
  }

  /** Clearing the write permission of an entry settles to no change of counts. */
  lemma ProtectIsSet(s: State, d: nat, e: nat)
    requires Inv(s) && User(d, e) && HasTable(s, d) && Entry(s, d, e).Present? && LOWF <= Entry(s, d, e).pfn
    ensures Retarget(s, d, e, Writable(Entry(s, d, e), false)) == SetEntry(s, d, e, Writable(Entry(s, d, e), false))
  {
    var p := Entry(s, d, e);
    assert GoodPte(s, p);
    InRefs(s, AsPage(d, e), p.pfn);
    assert |Refs(s, p.pfn)| > 0;
    if p.pfn in s.held { SoleUse(s, p.pfn, AsKernel, AsPage(d, e)); }
    assert AddTo(AddTo(s.memMap, p.pfn, -1), p.pfn, 1) == s.memMap;
    assert s.held - {p.pfn} == s.held;
  }

  /** With the source entry still in place the words are exactly a shared mapping. */
  lemma ShareWordsGood(s: State, fd: nat, d: nat, e: nat, phys: nat)
    requires Inv(s) && User(fd, e) && User(d, e) && fd % TASK_DIRS == d % TASK_DIRS && fd != d
    requires Entry(s, d, e) == Absent
    requires Maps(Entry(s, fd, e), phys) && LOWF <= phys && ShareWords(s, fd, d, e, phys).Some?
    ensures ShareWords(s, fd, d, e, phys) == MapBoth(s, fd, d, e) && Inv(ShareWords(s, fd, d, e, phys).value)
  {
    ProtectIsSet(s, fd, e);
    assert phys !in s.held by {
      if phys in s.held { SoleUse(s, phys, AsKernel, AsPage(fd, e)); }
    }
    var q := Writable(Entry(s, fd, e), false);
    var s1 := SetEntry(s, fd, e, q);
    EntryAfterSet(s, fd, e, q, d, e);
    assert s1.held - {phys} == s1.held;
    assert ShareWords(s, fd, d, e, phys) == MapBoth(s, fd, d, e);
    MapBothStep(s, fd, d, e);
  }

  /** With the source entry gone the frame's count goes up although nothing maps it. */
  lemma ShareWordsBad(s: State, fd: nat, d: nat, e: nat, phys: nat)
    requires Inv(s) && User(fd, e) && User(d, e) && fd != d && Entry(s, d, e) == Absent && Entry(s, fd, e) == Absent
    requires Managed(s, phys)
    requires ShareWords(s, fd, d, e, phys).Some?
    ensures !Exact(ShareWords(s, fd, d, e, phys).value)
  {
    var s' := ShareWords(s, fd, d, e, phys).value;
    EntryUnchanged(s, fd, e);
    EntryUnchanged(s, d, e);
    assert s' == s.(memMap := AddTo(s.memMap, phys, 1));
    CountStep(s, s', AsTable(0), phys);
    assert Uses(s', AsTable(0), phys) == Uses(s, AsTable(0), phys);
    assert Count(s', phys) == Count(s, phys) + 1;
  }

  lemma EntryUnchanged(s: State, d: nat, e: nat)
    requires HasTable(s, d) && e < 1024
    ensures SetEntry(s, d, e, Entry(s, d, e)) == s
  {
    var t := s.mem[s.dir[d].value].table;
    assert t[e := t[e]] == t;
  }

  /** try_to_share keeps the counts exact if and only if reclaim does not pick the source entry. */
  lemma ShareExactIff(s: State, fd: nat, d: nat, e: nat, vs: seq<(nat, nat)>)
    requires Inv(s) && TryToShare(s, fd, d, e, vs).Some? && fd % TASK_DIRS == d % TASK_DIRS && fd != d && s.dir[d].None?
    ensures Inv(TryToShare(s, fd, d, e, vs).value) <==> (fd, e) !in vs
  {
    var phys := Entry(s, fd, e).pfn;
    assert GoodPte(s, Entry(s, fd, e));
    ReclaimsKeep(s, vs);
    var s1 := Reclaims(s, vs).value;
    TakePageInv(s1);
    var s2 := TakePage(s1).value;
    NewTableInv(s2, d, TakenFrame(s1));
    var s3 := NewTable(s2, d, TakenFrame(s1));
    assert Entry(s3, d, e) == Entry(s1, d, e) == Absent;
    if (fd, e) in vs {
      ReclaimedCleanIsAbsent(s, vs, fd, e);
      ShareWordsBad(s3, fd, d, e, phys);
    } else {
      ShareWordsGood(s3, fd, d, e, phys);
    }
  }

  /** So they are whenever a frame is free or the target has a table. */
  lemma ShareExactBefore(s: State, fd: nat, d: nat, e: nat, vs: seq<(nat, nat)>)
    requires Inv(s) && TryToShare(s, fd, d, e, vs).Some? && fd % TASK_DIRS == d % TASK_DIRS && fd != d
    requires Entry(s, d, e) == Absent && (TakePage(s).Some? || s.dir[d].Some?)
    ensures Inv(TryToShare(s, fd, d, e, vs).value)
  {
    if s.dir[d].Some? {
      ShareWordsGood(s, fd, d, e, Entry(s, fd, e).pfn);
    } else {
      NotHit(s, fd, e, vs);
      ShareExactIff(s, fd, d, e, vs);
    }
  }

  lemma EvictLeaves(s: State, d': nat, e': nat, d: nat, e: nat)
    requires Inv(s) && User(d', e') && Evict(s, d', e').Some? && User(d, e)
    requires Entry(s, d, e) == Absent || IsClean(Entry(s, d, e))
    ensures Inv(Evict(s, d', e').value)
    ensures Entry(Evict(s, d', e').value, d, e) == if (d', e') == (d, e) then Absent else Entry(s, d, e)
  {
    EvictStep(s, d', e');
  }

  lemma InTail(vs: seq<(nat, nat)>, x: (nat, nat))
    requires vs != []
    ensures x in vs <==> x == vs[0] || x in vs[1..]
  {
    assert vs == [vs[0]] + vs[1..];
  }

  /** A clean page that reclaim takes leaves an empty entry. */
  lemma {:induction false} ReclaimedCleanIsAbsent(s: State, vs: seq<(nat, nat)>, d: nat, e: nat)
    requires Inv(s) && Reclaims(s, vs).Some? && User(d, e)
    requires Entry(s, d, e) == Absent || (IsClean(Entry(s, d, e)) && (d, e) in vs)
    ensures Entry(Reclaims(s, vs).value, d, e) == Absent
    decreases |vs|
  {
    if vs != [] {
      EvictLeaves(s, vs[0].0, vs[0].1, d, e);
      InTail(vs, (d, e));
      ReclaimedCleanIsAbsent(Evict(s, vs[0].0, vs[0].1).value, vs[1..], d, e);
    }
  }

  /** A private copy is marked clean. Whether it may then be dropped, or given to another task as
      the executable's page, is settled before it is made: it must equal the image, and does if
      the page copied was clean. */
  lemma CopyAtRisk(s: State, d: nat, e: nat)
    requires Inv(s) && User(d, e) && Unshare(s, d, e, true).Some?
    ensures var s1 := Unshare(s, d, e, true).value;
      && IsClean(Entry(s1, d, e)) && Entry(s1, d, e).pfn >= LOWF
      && (BackedAt(s1, d, e) <==> View(s, d, e) == ImageOf(s, d, e))
      && (Backed(s) ==> (Backed(s1) <==> View(s, d, e) == ImageOf(s, d, e)))
      && (BackedAt(s, d, e) && !Entry(s, d, e).dirty && Entry(s, d, e).pfn >= LOWF ==>
        View(s, d, e) == ImageOf(s, d, e))
      && Evict(s1, d, e).Some? && View(Evict(s1, d, e).value, d, e) == ImageOf(s, d, e)
  {
    UnshareStep(s, d, e, true);
    var s1 := Unshare(s, d, e, true).value;
    UnshareCopies(s, d, e);
    assert BackedAt(s1, d, e) <==> View(s, d, e) == ImageOf(s, d, e);
    if Backed(s) && BackedAt(s1, d, e) {
      forall d': nat, e': nat | User(d', e') && (d' != d || e' != e) ensures BackedAt(s1, d', e') {
        assert BackedAt(s, d', e');
        OthersKept(s, s1, d, e, d', e');
      }
    }
    EvictStep(s1, d, e);
  }

  /** The copy is on a fresh frame of main memory, clean. */
  lemma UnshareCopies(s: State, d: nat, e: nat)
    requires Inv(s) && User(d, e) && Unshare(s, d, e, true).Some?
    ensures Entry(Unshare(s, d, e, true).value, d, e) == Present(TakenFrame(s), true, false)
    ensures LOWF <= TakenFrame(s) < TOTALF && Unshare(s, d, e, true).value.image == s.image
    ensures HasTable(Unshare(s, d, e, true).value, d)
  {
    assert GoodPte(s, Entry(s, d, e));
    FreshPage(s, s.mem[Entry(s, d, e).pfn].page);
    var s2 := SetBytes(TakePage(s).value, TakenFrame(s), s.mem[Entry(s, d, e).pfn].page);
    TakePageInv(s);
    RetargetEntries(s2, d, e, Present(TakenFrame(s), true, false));
  }

  /** Out to the swap device and back: the same bytes, writable and dirty, on a fresh frame,
      and the same slots free. */
  lemma SwapRoundTrip(s: State, d: nat, e: nat)
    requires Inv(s) && User(d, e) && Entry(s, d, e).Present? && Entry(s, d, e).dirty && Evict(s, d, e).Some?
    ensures SwapIn(Evict(s, d, e).value, d, e).Some?
    ensures RoundTrip(s, SwapIn(Evict(s, d, e).value, d, e).value, d, e)
  {
    var was := Entry(s, d, e).pfn;
    assert GoodPte(s, Entry(s, d, e));
    EvictStep(s, d, e);
    var s1 := Evict(s, d, e).value;
    var k := FirstSlot(s.bits, 1).value;
    var t := s.(swap := s.swap[k := s.mem[was].page]);
    SwapWrite(s, k, s.mem[was].page);
    RetargetEntries(t, d, e, Swapped(k));
    assert s1 == Retarget(t, d, e, Swapped(k));
    assert s1.memMap[was - LOWF] == 0;
    assert TakePage(s1).Some?;
    TakePageInv(s1);
    UserTable(s1, d);
    SwapInStep(s1, d, e);
    var s2 := SwapIn(s1, d, e).value;
    assert s1.bits == s.bits[k := false];
    assert s2.bits == s1.bits[k := true];
  }

  ghost predicate RoundTrip(s: State, s': State, d: nat, e: nat) {
    Inv(s') && View(s', d, e) == View(s, d, e) && IsRw(Entry(s', d, e)) && Entry(s', d, e).dirty && s'.bits == s.bits
  }

  ghost predicate AtSamePlace(us: set<Use>, c: nat, e: nat) {
    forall u <- us :: u.AsPage? && u.d % TASK_DIRS == c && u.e == e && FIRST_VM_DIR <= u.d < 1024
  }

  /** Mappings at one place of the address space are at most one per task slot. */
  lemma {:induction false} OnePerTask(us: set<Use>, c: nat, e: nat, n: nat)
    requires AtSamePlace(us, c, e) && 1 <= n && forall u <- us :: u.d / TASK_DIRS < n
    ensures |us| <= n - 1
    decreases n
  {
    if n == 1 {
      assert forall u :: u !in us;
    } else {
      var v := AsPage(TASK_DIRS * (n - 1) + c, e);
      var rest := us - {v};
      forall u <- rest ensures u.d / TASK_DIRS < n - 1 {
        assert u.d == TASK_DIRS * (u.d / TASK_DIRS) + c;
      }
      OnePerTask(rest, c, e, n - 1);
      if v in us { assert us == rest + {v}; } else { assert us == rest; }
    }
  }

  /** No count ever reaches 64 tasks, the USED marker or the end of its byte. */
  lemma CountBound(s: State, f: nat)
    requires Inv(s) && Managed(s, f)
    ensures Count(s, f) <= NR_TASKS - 1
  {
    var us := Refs(s, f);
    if us != {} {
      var u :| u in us;
      forall v <- us ensures Uses(s, v, f) { InRefs(s, v, f); }
      if u.AsPage? {
        forall v <- us ensures v.AsPage? && v.d % TASK_DIRS == u.d % TASK_DIRS && v.e == u.e {
          assert v == u || Compatible(s, u, v);
        }
        OnePerTask(us, u.d % TASK_DIRS, u.e, NR_TASKS);
      } else {
        forall v <- us ensures v == u { SoleUse(s, f, u, v); }
        assert us == {u};
      }
    }
  }
}
