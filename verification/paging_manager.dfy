/** mm/memory.c and mm/swap.c on mutable state: the page directory, physical memory,
    mem_map, the swap bitmap and the swap device are arrays updated in place. */
module MemoryManagement {
  import opened Wrappers
  import opened PagingState
  import opened PagingOps
  import opened PagingSteps
  import opened PagingClock
  import opened PagingPossible
  import opened PagingReclaim
  import opened PagingFork
  import opened PagingNeed

  const VM_PAGES: int := 1024 * 1024 - FIRST_VM_DIR * 1024

  class MemoryManager {
    const pgDir: array<Option<nat>>
    const mem: array<Frame>
    const memMap: array<nat>
    const swapBitmap: array<bool>
    const swapDev: array<Page>
    var start: nat
    var high: nat              // HIGH_MEMORY >> 12
    var dirEntry: nat          // the clock hand of swap_out
    var pageEntry: int
    ghost var held: set<nat>
    ghost var usable: set<nat>
    ghost var image: Image

    ghost function Repr(): set<object> {
      {this, pgDir, mem, memMap, swapBitmap, swapDev}
    }

    ghost predicate Valid()
      reads this
    {
      && pgDir.Length == 1024 && mem.Length == TOTALF && memMap.Length == TOTALF - LOWF
      && swapBitmap.Length == SWAP_SLOTS && swapDev.Length == SWAP_SLOTS
      && LOWF <= start <= high <= TOTALF
      && FIRST_VM_DIR <= dirEntry < 1024 && -1 <= pageEntry < 1024
    }

    ghost function Abs(): State
      reads this, Repr()
      requires Valid()
    {
      State(pgDir[..], mem[..], memMap[..], held, start, high, swapBitmap[..], swapDev[..], usable, image)
    }

    /** mem_init: everything USED, then the frames of main memory free. */
    constructor (startMem: nat, endMem: nat, ghost slots: set<nat>, bitmap: SwapBits)
      requires LOWF <= startMem <= endMem <= TOTALF
      requires forall k <- slots :: 0 < k < SWAP_SLOTS
      requires forall k: nat | 0 < k < SWAP_SLOTS :: bitmap[k] == (k in slots)
      ensures Valid() && Inv(Abs()) && Backed(Abs()) && fresh(Repr())
      ensures high == endMem && start == startMem && held == {}
      ensures forall f: nat | LOWF <= f < TOTALF :: Count(Abs(), f) == if startMem <= f < endMem then 0 else USED
    {
      pgDir := new Option<nat>[1024](_ => None);
      mem := new Frame[TOTALF](_ => Bytes(ZeroPage()));
      memMap := new nat[TOTALF - LOWF](_ => 0);
      swapBitmap := new bool[SWAP_SLOTS](i requires 0 <= i < SWAP_SLOTS => bitmap[i]);
      swapDev := new Page[SWAP_SLOTS](_ => ZeroPage());
      start, high := startMem, endMem;
      dirEntry, pageEntry := FIRST_VM_DIR, -1;
      held, usable, image := {}, slots, seq<ImageRow>(1024, _ => NoImage());
      new;
      MarkMemory(memMap, startMem, endMem);
      FreshInv(Abs());
    }

    /** mem_init's two loops. */
    static method MarkMemory(memMap: array<nat>, startMem: nat, endMem: nat)
      requires LOWF <= startMem <= endMem <= TOTALF && memMap.Length == TOTALF - LOWF
      modifies memMap
      ensures forall j | 0 <= j < TOTALF - LOWF :: memMap[j] == if startMem - LOWF <= j < endMem - LOWF then 0 else USED
    {
      var i := 0;
      while i < TOTALF - LOWF
        invariant 0 <= i <= TOTALF - LOWF
        invariant forall j | 0 <= j < i :: memMap[j] == USED
      {
        memMap[i] := USED;
        i := i + 1;
      }
      i := startMem - LOWF;
      var n: int := endMem - startMem;
      while n > 0
        invariant 0 <= n <= endMem - startMem && i == endMem - LOWF - n
        invariant forall j | 0 <= j < TOTALF - LOWF :: memMap[j] == if startMem - LOWF <= j < i then 0 else USED
      {
        memMap[i] := 0;
        n, i := n - 1, i + 1;
      }
    }

    /** free_page; `panic` reports its two panics. */
    method FreePage(f: nat) returns (panic: bool)
      requires Valid()
      modifies memMap
      ensures panic <==> f >= high || (f >= LOWF && old(memMap[..])[f - LOWF] == 0)
      ensures Abs() == if panic then old(Abs()) else old(Abs()).(memMap := AddTo(old(Abs()).memMap, f, -1))
    {
      if f < LOWF { return false; }
      if f >= high { return true; }
      if memMap[f - LOWF] != 0 {
        memMap[f - LOWF] := memMap[f - LOWF] - 1;
        return false;
      }
      return true;
    }

    /** get_swap_page: 0 when the device is full. */
    method GetSwapPage() returns (nr: nat)
      requires Valid()
      modifies swapBitmap
      ensures nr == match FirstSlot(old(Abs()).bits, 1) { case None => 0 case Some(k) => k }
      ensures nr < SWAP_SLOTS && Abs() == if nr == 0 then old(Abs()) else
        old(Abs()).(bits := old(Abs()).bits[nr := false])
    {
      nr := 1;
      while nr < SWAP_SLOTS
        invariant 1 <= nr <= SWAP_SLOTS
        invariant Abs() == old(Abs())
        invariant FirstSlot(old(Abs()).bits, 1) == FirstSlot(old(Abs()).bits, nr)
      {
        if swapBitmap[nr] {
          swapBitmap[nr] := false;
          return;
        }
        nr := nr + 1;
      }
      nr := 0;
    }

    /** swap_free; `bad` is its complaint about a slot that is already free. */
    method SwapFree(nr: nat) returns (bad: bool)
      requires Valid()
      modifies swapBitmap
      ensures bad <==> nr != 0 && (nr >= SWAP_SLOTS || old(swapBitmap[..])[nr])
      ensures Abs() == if 0 < nr < SWAP_SLOTS then old(Abs()).(bits := old(Abs()).bits[nr := true]) else old(Abs())
    {
      if nr == 0 { return false; }
      if nr < SWAP_SLOTS {
        bad := swapBitmap[nr];
        swapBitmap[nr] := true;
        assert swapBitmap[..] == old(swapBitmap[..])[nr := true];
        return;
      }
      return true;
    }

    method SetPte(d: nat, e: nat, q: Pte)
      requires Valid() && HasTable(Abs(), d) && e < 1024
      modifies mem
      ensures Abs() == SetEntry(old(Abs()), d, e, q)
    {
      mem[pgDir[d].value] := Ptes(mem[pgDir[d].value].table[e := q]);
    }

    /** try_to_swap_out on a dirty page of main memory. */
    method SwapOutDirty(d: nat, e: nat, f: nat) returns (r: bool)
      requires Valid() && Inv(Abs()) && User(d, e) && HasTable(Abs(), d) && Maps(Entry(Abs(), d, e), f)
      requires Entry(Abs(), d, e).dirty && LOWF <= f < TOTALF
      modifies mem, memMap, swapBitmap, swapDev
      ensures r == Evict(old(Abs()), d, e).Some?
      ensures Abs() == if r then Evict(old(Abs()), d, e).value else old(Abs())
    {
      ghost var s := Abs();
      assert GoodPte(s, Entry(s, d, e));
      if memMap[f - LOWF] != 1 { return false; }
      var nr := GetSwapPage();
      if nr == 0 { return false; }
      SetPte(d, e, Swapped(nr));
      swapDev[nr] := mem[f].page;
      var panic := FreePage(f);
      assert !panic;
      assert Abs() == Evict(s, d, e).value;
      return true;
    }

    /** try_to_swap_out: it takes a clean page of main memory, and a dirty one if nobody else has it
        and a slot is free. */
    method TryToSwapOut(d: nat, e: nat) returns (r: bool)
      requires Valid() && Inv(Abs()) && User(d, e) && HasTable(Abs(), d)
      modifies mem, memMap, swapBitmap, swapDev
      ensures r <==>
        var p := Entry(old(Abs()), d, e);
        && p.Present? && LOWF <= p.pfn < TOTALF
        && (p.dirty ==> Count(old(Abs()), p.pfn) == 1 && exists k: nat :: 0 < k < SWAP_SLOTS && old(Abs()).bits[k])
      ensures r == Evict(old(Abs()), d, e).Some?
      ensures Abs() == if r then Evict(old(Abs()), d, e).value else old(Abs())
    {
      ghost var s := Abs();
      var page := mem[pgDir[d].value].table[e];
      assert page == Entry(s, d, e) && GoodPte(s, page);
      EvictIff(s, d, e);
      if !page.Present? { return false; }
      if page.pfn < LOWF || page.pfn - LOWF > TOTALF - LOWF { return false; }
      if page.dirty {
        r := SwapOutDirty(d, e, page.pfn);
        return;
      }
      InRefs(s, AsPage(d, e), page.pfn);
      assert |Refs(s, page.pfn)| > 0;
      SetPte(d, e, Absent);
      var panic := FreePage(page.pfn);
      assert !panic;
      return true;
    }

    /** swap_out: the clock hand sweeps until one entry goes, or its counter runs out. It fails exactly
        if nothing can be evicted but what the sweep misses, see Missed. */
    method SwapOut() returns (r: bool, ghost d: nat, ghost e: nat)
      requires Valid() && Inv(Abs())
      modifies mem, memMap, swapBitmap, swapDev, `dirEntry, `pageEntry
      ensures Valid()
      ensures if r then User(d, e) && Evict(old(Abs()), d, e) == Some(Abs()) else Abs() == old(Abs())
      ensures r ==> !Missed(old(Abs()), old(dirEntry), old(pageEntry), d, e)
      ensures !r ==> NoVictim(Abs(), old(dirEntry), old(pageEntry))
    {
      ghost var s, h, p0 := Abs(), dirEntry, pageEntry;
      d, e, r := 0, 0, false;
      var counter := VM_PAGES;
      ghost var m := 0;
      RingStart(h);
      while counter > 0
        invariant Valid() && Abs() == s && pageEntry == p0
        invariant 0 <= m <= VM_DIRS && counter == VM_PAGES - 1024 * m && dirEntry == Ring(h, m)
        invariant forall j: nat | j < m :: s.dir[Ring(h, j)].None?
      {
        if pgDir[dirEntry].Some? { break; }
        counter := counter - 1024;
        RingNext(h, m);
        dirEntry := dirEntry + 1;
        if dirEntry >= 1024 { dirEntry := FIRST_VM_DIR; }
        m := m + 1;
      }
      if counter <= 0 {
        NothingThere(s, h, p0);
        return;
      }
      r, d, e := Sweep(h, m, counter);
    }

    /** The second loop of swap_out, from the first directory that has a table, m behind h. */
    method Sweep(ghost h: nat, ghost m: nat, c: int) returns (r: bool, ghost d: nat, ghost e: nat)
      requires Valid() && Inv(Abs()) && FIRST_VM_DIR <= h < 1024 && m < VM_DIRS && c == VM_PAGES - 1024 * m
      requires dirEntry == Ring(h, m) && Abs().dir[dirEntry].Some?
      requires forall j: nat | j < m :: Abs().dir[Ring(h, j)].None?
      modifies mem, memMap, swapBitmap, swapDev, `dirEntry, `pageEntry
      ensures Valid()
      ensures if r then User(d, e) && Evict(old(Abs()), d, e) == Some(Abs()) else Abs() == old(Abs())
      ensures r ==> !Missed(old(Abs()), h, old(pageEntry), d, e)
      ensures !r ==> NoVictim(Abs(), h, old(pageEntry))
    {
      ghost var s, p0, top := Abs(), pageEntry, dirEntry;
      var counter := c;
      ghost var k := 0;
      d, e, r := 0, 0, false;
      RingStart(top);
      while counter > 0
        invariant Valid() && Abs() == s && !r && SweepAt(s, h, m, p0, top, k, pageEntry, dirEntry)
        invariant counter == Left(m, p0, k) - pageEntry
        decreases counter
      {
        counter := counter - 1;
        pageEntry := pageEntry + 1;
        if pageEntry >= 1024 {
          pageEntry := 0;
          var exhausted;
          exhausted, counter, k := NextTable(h, m, p0, top, k, counter);
          if exhausted { return; }
        }
        r := TryToSwapOut(dirEntry, pageEntry);
        SweepTried(s, h, m, p0, top, k, pageEntry, dirEntry);
        if r {
          d, e := dirEntry, pageEntry;
          return;
        }
      }
      SweepDone(s, h, m, p0, top, k, pageEntry, dirEntry);
    }

    /** The `repeat` of swap_out: on to the next directory that has a table. */
    method NextTable(ghost h: nat, ghost m: nat, ghost p0: int, ghost top: nat, ghost k0: nat, c: int)
      returns (exhausted: bool, counter: int, ghost k: nat)
      requires Valid() && Inv(Abs()) && pageEntry == 0 && SweepAt(Abs(), h, m, p0, top, k0, 1023, dirEntry)
      requires c == Left(m, p0, k0 + 1) && c >= 0
      modifies `dirEntry
      ensures Valid() && Abs() == old(Abs())
      ensures exhausted ==> NoVictim(Abs(), h, p0)
      ensures !exhausted ==> k > k0 && SweepAt(Abs(), h, m, p0, top, k, -1, dirEntry)
      ensures !exhausted ==> counter == Left(m, p0, k) >= 0
    {
      ghost var s := Abs();
      SweptDirectory(s, h, m, p0, top, k0, dirEntry);
      counter, k := c, k0;
      while true
        invariant Valid() && Abs() == s && k0 <= k < VM_DIRS
        invariant Swept(s, h, m, p0, top, k + 1) && dirEntry == Ring(top, k)
        invariant counter == Left(m, p0, k + 1)
        invariant if k == k0 then counter >= 0 && s.dir[dirEntry].Some? else counter > 0
        decreases counter
      {
        ghost var dir := dirEntry;
        dirEntry := dirEntry + 1;
        if dirEntry >= 1024 { dirEntry := FIRST_VM_DIR; }
        NextDirectory(s, h, m, p0, top, k0, k, counter, dir, dirEntry);
        k := k + 1;
        if pgDir[dirEntry].Some? { return false, counter, k; }
        counter := counter - 1024;
        if counter <= 0 { return true, counter, k; }
      }
    }

    /** get_free_page: the last free frame, reclaiming while there is none. */
    method GetFreePage() returns (f: Option<nat>, ghost vs: seq<(nat, nat)>)
      requires Valid() && Inv(Abs())
      modifies mem, memMap, swapBitmap, swapDev, `dirEntry, `pageEntry, `held
      ensures Valid() && Reclaims(old(Abs()), vs).Some?
      ensures f.None? ==> Abs() == Reclaims(old(Abs()), vs).value && OutOfMemory(Abs())
      ensures old(TakePage(Abs())).Some? ==> f.Some? && vs == []
      ensures f.Some? ==> TakePage(Reclaims(old(Abs()), vs).value) == Some(Abs())
      ensures f.Some? ==> f.value == TakenFrame(Reclaims(old(Abs()), vs).value)
      ensures f.Some? ==> LOWF <= f.value < TOTALF && memMap[f.value - LOWF] == 1 && mem[f.value] == Bytes(ZeroPage())
    {
      vs := [];
      while true
        invariant Valid() && Reclaims(old(Abs()), vs) == Some(Abs()) && Inv(Abs())
        decreases Presents(Abs())
      {
        ghost var s := Abs();
        var i := TOTALF;
        while i > LOWF && memMap[i - 1 - LOWF] != 0
          invariant LOWF <= i <= TOTALF && LastFree(s.memMap, TOTALF) == LastFree(s.memMap, i)
        {
          i := i - 1;
        }
        if i > LOWF {
          memMap[i - 1 - LOWF] := 1;
          mem[i - 1] := Bytes(ZeroPage());
          held := held + {i - 1};
          return Some(i - 1), vs;
        }
        ghost var d, e;
        var r;
        r, d, e := SwapOut();
        if !r { return None, vs; }
        ReclaimsAppend(old(Abs()), vs, d, e);
        EvictStep(s, d, e);
        EvictShrinks(s, d, e);
        vs := vs + [(d, e)];
      }
    }

    /** Fill the kernel's frame f and map it writable. */
    method MapFilled(f: nat, page: Page, d: nat, e: nat, dirty: bool)
      requires Valid() && HasTable(Abs(), d) && e < 1024 && f < TOTALF && mem[f].Bytes?
      modifies mem, `held
      ensures Valid() && HasTable(SetBytes(old(Abs()), f, page), d)
      ensures Abs() == SetEntry(SetBytes(old(Abs()), f, page), d, e, Present(f, true, dirty)).(held := old(held) - {f})
    {
      ghost var s := Abs();
      mem[f] := Bytes(page);
      assert Abs() == SetBytes(s, f, page);
      SetPte(d, e, Present(f, true, dirty));
      held := held - {f};
    }

    /** swap_in. false is its oom(). */
    method SwapInPage(d: nat, e: nat) returns (ok: bool, ghost vs: seq<(nat, nat)>)
      requires Valid() && Inv(Abs()) && User(d, e) && Entry(Abs(), d, e).Swapped?
      modifies mem, memMap, swapBitmap, swapDev, `dirEntry, `pageEntry, `held
      ensures Valid() && Reclaims(old(Abs()), vs).Some?
      ensures ok == SwapIn(Reclaims(old(Abs()), vs).value, d, e).Some?
      ensures !ok ==> OutOfMemory(Abs())
      ensures old(TakePage(Abs())).Some? ==> ok && vs == []
      ensures Abs() == if ok then SwapIn(Reclaims(old(Abs()), vs).value, d, e).value else Reclaims(old(Abs()), vs).value
    {
      ghost var s0 := Abs();
      var nr := mem[pgDir[d].value].table[e].slot;
      var f;
      f, vs := GetFreePage();
      SwapInFacts(s0, vs, d, e);
      if f.None? { return false, vs; }
      MapFilled(f.value, swapDev[nr], d, e, true);
      swapBitmap[nr] := true;
      return true, vs;
    }

    /** The lines of un_wp_page after get_free_page. */
    method GiveBackAndCopy(was: nat, f: nat, d: nat, e: nat)
      requires Valid() && HasTable(Abs(), d) && e < 1024 && was < TOTALF && f < TOTALF && mem[f].Bytes?
      requires mem[was].Bytes?
      modifies mem, memMap, `held
      ensures Valid() && CopyOver(old(Abs()), d, e, was, f) == Some(Abs())
    {
      ghost var s := Abs();
      if was >= LOWF {
        memMap[was - LOWF] := if memMap[was - LOWF] == 0 then 255 else memMap[was - LOWF] - 1;
      }
      assert Abs() == s.(memMap := ByteDec(s.memMap, was));
      MapFilled(f, mem[was].page, d, e, false);
    }

    /** un_wp_page. false is its oom(). */
    method UnWriteProtect(d: nat, e: nat) returns (ok: bool, ghost vs: seq<(nat, nat)>)
      requires Valid() && Inv(Abs()) && User(d, e) && Entry(Abs(), d, e).Present?
      modifies mem, memMap, swapBitmap, swapDev, `dirEntry, `pageEntry, `held
      ensures Valid() && Reclaims(old(Abs()), vs).Some?
      ensures ok ==> UnWpPage(old(Abs()), d, e, vs) == Some(Abs())
      ensures !ok ==> Abs() == Reclaims(old(Abs()), vs).value && OutOfMemory(Abs())
      ensures old(TakePage(Abs())).Some? ==> ok && vs == []
      ensures var p := Entry(old(Abs()), d, e);
        LOWF <= p.pfn < TOTALF && Count(old(Abs()), p.pfn) == 1 ==>
          ok && vs == [] && Abs() == SetEntry(old(Abs()), d, e, p.(rw := true))
    {
      ghost var s0 := Abs();
      var p := mem[pgDir[d].value].table[e];
      assert GoodPte(s0, p);
      if p.pfn >= LOWF && memMap[p.pfn - LOWF] == 1 {
        SetPte(d, e, Present(p.pfn, true, p.dirty));
        OwnerKeepsFrame(s0, d, e);
        return true, [];
      }
      var f;
      f, vs := GetFreePage();
      if f.None? { return false, vs; }
      assert HasTable(Abs(), d) && mem[f.value].Bytes? && mem[p.pfn].Bytes? by {
        ReclaimsKeep(s0, vs);
        ghost var s := Reclaims(s0, vs).value;
        TakePageInv(s);
        UserTable(s0, d);
        UserTable(s, d);
      }
      GiveBackAndCopy(p.pfn, f.value, d, e);
      return true, vs;
    }

    /** A cleared page becomes the page table of directory d, which had none. */
    method AllocTable(d: nat) returns (ok: bool, ghost vs: seq<(nat, nat)>)
      requires Valid() && Inv(Abs()) && FIRST_VM_DIR <= d < 1024 && pgDir[d].None?
      modifies pgDir, mem, memMap, swapBitmap, swapDev, `dirEntry, `pageEntry, `held
      ensures Valid() && Reclaims(old(Abs()), vs).Some?
      ensures ok ==> var s := Reclaims(old(Abs()), vs).value;
        TakePage(s).Some? && Abs() == NewTable(TakePage(s).value, d, TakenFrame(s))
      ensures !ok ==> Abs() == Reclaims(old(Abs()), vs).value && OutOfMemory(Abs())
      ensures old(TakePage(Abs())).Some? ==> ok && vs == []
    {
      ghost var s0 := Abs();
      var f;
      f, vs := GetFreePage();
      if f.None? { return false, vs; }
      ghost var s2 := Abs();
      pgDir[d] := Some(f.value);
      mem[f.value] := Ptes(EmptyTable());
      held := held - {f.value};
      assert Abs() == NewTable(s2, d, f.value);
      return true, vs;
    }

    /** The page table of directory d, allocated if it is missing; put_page, put_dirty_page
        and try_to_share all begin this way. */
    method TableFor(d: nat) returns (ok: bool, ghost vs: seq<(nat, nat)>)
      requires Valid() && Inv(Abs()) && FIRST_VM_DIR <= d < 1024
      modifies pgDir, mem, memMap, swapBitmap, swapDev, `dirEntry, `pageEntry, `held
      ensures Valid() && Reclaims(old(Abs()), vs).Some? && (old(Abs()).dir[d].Some? ==> ok && vs == [])
      ensures ok && old(Abs()).dir[d].None? ==> var s := Reclaims(old(Abs()), vs).value;
        TakePage(s).Some? && Abs() == NewTable(TakePage(s).value, d, TakenFrame(s))
      ensures old(Abs()).dir[d].Some? || !ok ==> Abs() == Reclaims(old(Abs()), vs).value
      ensures Inv(Abs()) && (ok ==> HasTable(Abs(), d))
      ensures !ok ==> OutOfMemory(Abs())
      ensures old(TakePage(Abs())).Some? ==> ok && vs == []
    {
      ghost var s0 := Abs();
      if pgDir[d].Some? {
        UserTable(s0, d);
        return true, [];
      }
      ok, vs := AllocTable(d);
      ReclaimsKeep(s0, vs);
      if ok { NewTableStep(Reclaims(s0, vs).value, d); }
    }

    /** put_page (dirty == false) and put_dirty_page (dirty == true) of a page the kernel
        holds. false is their 0. */
    method PutPageAt(f: nat, d: nat, e: nat, dirty: bool) returns (ok: bool, ghost vs: seq<(nat, nat)>)
      requires Valid() && Inv(Abs()) && User(d, e) && f in held && Entry(Abs(), d, e) == Absent
      modifies pgDir, mem, memMap, swapBitmap, swapDev, `dirEntry, `pageEntry, `held
      ensures Valid() && Inv(Abs()) && Reclaims(old(Abs()), vs).Some?
      ensures !ok ==> Abs() == Reclaims(old(Abs()), vs).value && OutOfMemory(Abs())
      ensures old(TakePage(Abs())).Some? || old(Abs()).dir[d].Some? ==> ok && vs == []
      ensures ok ==> Entry(Abs(), d, e) == Present(f, true, dirty) && held == old(held) - {f} && mem[f] == old(mem[f])
      ensures old(Backed(Abs())) && (ok && !dirty ==> old(mem[f]) == Bytes(ImageOf(old(Abs()), d, e))) ==> Backed(Abs())
      ensures ok ==> View(Abs(), d, e) == old(mem[f]).page
      ensures forall d': nat, e': nat | User(d', e') && !(ok && d' == d && e' == e) ::
        Kept(old(Abs()), d', Abs(), d', e')
    {
      ghost var s0 := Abs();
      ok, vs := TableFor(d);
      ghost var s1 := Abs();
      ReclaimsKeep(s0, vs);
      if !ok { return; }
      HeldStays(s0, vs, s1, d, e, f);
      SetPte(d, e, Present(f, true, dirty));
      held := held - {f};
      PutEffect(s0, s1, d, e, f, dirty);
      assert Abs() == PutPage(s1, d, e, f, dirty);
    }

    /** copy_page_tables on a swapped page: read it for the parent, give the child the slot. */
    method CopySwappedTurn(fd: nat, td: nat, e: nat) returns (ok: bool, ghost vs: seq<(nat, nat)>)
      requires Valid() && Inv(Abs()) && User(td, e) && User(fd, e) && fd != td && HasTable(Abs(), td)
      requires Entry(Abs(), td, e) == Absent && Entry(Abs(), fd, e).Swapped? && image[td] == image[fd]
      modifies mem, memMap, swapBitmap, swapDev, `dirEntry, `pageEntry, `held
      ensures Valid() && Reclaims(old(Abs()), vs).Some?
      ensures ok ==> CopyEntry(Reclaims(old(Abs()), vs).value, fd, td, e) == Some(Abs())
      ensures !ok ==> Abs() == Reclaims(old(Abs()), vs).value && OutOfMemory(Abs())
      ensures old(TakePage(Abs())).Some? ==> ok && vs == []
    {
      ghost var s0 := Abs();
      var nr := mem[pgDir[fd].value].table[e].slot;
      var f;
      f, vs := GetFreePage();
      ghost var s := Reclaims(s0, vs).value;
      if f.None? { return false, vs; }
      AfterReclaim(s0, vs, fd, td, e);
      HandOverIs(s, fd, td, e);
      MapFilled(f.value, swapDev[nr], fd, e, true);
      SetPte(td, e, Swapped(nr));
      return true, vs;
    }

    /** copy_page_tables on a present page: both entries read-only, the count one higher. */
    method CopyPresentTurn(fd: nat, td: nat, e: nat)
      requires Valid() && Inv(Abs()) && User(td, e) && fd < 1024 && fd != td && HasTable(Abs(), td)
      requires Entry(Abs(), td, e) == Absent && HasTable(Abs(), fd) && image[td] == image[fd]
      requires CopySource(Abs(), fd, e) && Entry(Abs(), fd, e).Present?
      modifies mem, memMap
      ensures Valid() && CopyEntry(old(Abs()), fd, td, e) == Some(Abs())
    {
      PresentIs(Abs(), fd, td, e);
      var p := mem[pgDir[fd].value].table[e].(rw := false);
      if p.pfn >= LOWF {
        SetPte(fd, e, p);
        ghost var s1 := Abs();
        SetPte(td, e, p);
        memMap[p.pfn - LOWF] := memMap[p.pfn - LOWF] + 1;
        assert memMap[..] == AddTo(s1.memMap, p.pfn, 1);
      } else {
        SetPte(td, e, p);
      }
    }

    /** One turn of copy_page_tables' inner loop; false is its return of -1. */
    method CopyTurn(fd: nat, td: nat, e: nat) returns (ok: bool, ghost vs: seq<(nat, nat)>)
      requires Valid() && Inv(Abs()) && User(td, e) && fd < 1024 && fd != td && HasTable(Abs(), td)
      requires Entry(Abs(), td, e) == Absent && HasTable(Abs(), fd) && image[td] == image[fd]
      requires CopySource(Abs(), fd, e)
      modifies mem, memMap, swapBitmap, swapDev, `dirEntry, `pageEntry, `held
      ensures Valid() && Reclaims(old(Abs()), vs).Some?
      ensures ok ==> CopyEntry(Reclaims(old(Abs()), vs).value, fd, td, e) == Some(Abs())
      ensures !ok ==> Abs() == Reclaims(old(Abs()), vs).value && OutOfMemory(Abs())
      ensures old(TakePage(Abs())).Some? || !Entry(old(Abs()), fd, e).Swapped? ==> ok && vs == []
    {
      InheritNothing(Abs(), fd, td, e);
      match mem[pgDir[fd].value].table[e]
      case Absent =>
        return true, [];
      case Swapped(nr) =>
        ok, vs := CopySwappedTurn(fd, td, e);
      case Present(_, _, _) =>
        CopyPresentTurn(fd, td, e);
        return true, [];
    }

    /** That turn as part of a fork. */
    method RowTurn(ghost s0: State, ghost fd0: nat, ghost td0: nat, ghost size: nat, fd: nat, td: nat, e: nat)
      returns (ok: bool)
      requires Valid() && Forking(s0, Abs(), fd0, td0, size, td, e, td + 1) && MayFork(s0, fd0, td0, size)
      requires InRange(td, td0, Dirs(size)) && fd == td - td0 + fd0 && e < CountIn(size, td - td0)
      requires td < 1024 && pgDir[td].Some? && fd < 1024 && pgDir[fd].Some? && RestEmpty(Abs(), td, e)
      requires Ample(s0, Abs(), fd0, td0, size, td, e, true)
      modifies mem, memMap, swapBitmap, swapDev, `dirEntry, `pageEntry, `held
      ensures Valid() && Inv(Abs()) && (Backed(s0) ==> Backed(Abs())) && OutsideSame(s0, Abs(), td0, Dirs(size))
      ensures ok ==> Forking(s0, Abs(), fd0, td0, size, td, e + 1, td + 1) && RestEmpty(Abs(), td, e + 1)
      ensures ok ==> Ample(s0, Abs(), fd0, td0, size, td, e + 1, true)
      ensures !ok ==> OutOfMemory(Abs()) && !Enough(s0, fd0, size)
    {
      ghost var s := Abs();
      TurnReady(s0, s, fd0, td0, size, td, e);
      ghost var vs;
      ok, vs := CopyTurn(fd, td, e);
      TurnDone(s0, s, vs, Abs(), ok, fd0, td0, size, td, e);
      TurnAmple(s0, s, vs, Abs(), ok, fd0, td0, size, td, e);
    }

    /** copy_page_tables' inner loop over one directory; false is its return of -1. */
    method CopyRow(ghost s0: State, ghost fd0: nat, ghost td0: nat, ghost size: nat, fd: nat, td: nat, nr: nat)
      returns (ok: bool)
      requires Valid() && Forking(s0, Abs(), fd0, td0, size, td, 0, td + 1) && MayFork(s0, fd0, td0, size)
      requires InRange(td, td0, Dirs(size)) && fd == td - td0 + fd0 && nr == CountIn(size, td - td0)
      requires td < 1024 && pgDir[td].Some? && fd < 1024 && pgDir[fd].Some? && RestEmpty(Abs(), td, 0)
      requires s0.dir[td - td0 + fd0].Some?
      requires Ample(s0, Abs(), fd0, td0, size, td, 0, true)
      modifies mem, memMap, swapBitmap, swapDev, `dirEntry, `pageEntry, `held
      ensures Valid() && Inv(Abs()) && (Backed(s0) ==> Backed(Abs())) && OutsideSame(s0, Abs(), td0, Dirs(size))
      ensures ok ==> Forking(s0, Abs(), fd0, td0, size, td + 1, 0, td + 1)
      ensures ok ==> Ample(s0, Abs(), fd0, td0, size, td + 1, 0, false)
      ensures !ok ==> OutOfMemory(Abs()) && !Enough(s0, fd0, size)
    {
      var e := 0;
      while e < nr
        invariant 0 <= e <= nr && Valid()
        invariant Forking(s0, Abs(), fd0, td0, size, td, e, td + 1) && RestEmpty(Abs(), td, e)
        invariant Ample(s0, Abs(), fd0, td0, size, td, e, true)
      {
        ok := RowTurn(s0, fd0, td0, size, fd, td, e);
        if !ok { return; }
        e := e + 1;
      }
      RowForking(s0, Abs(), fd0, td0, size, td, e);
      AmpleRow(s0, Abs(), fd0, td0, size, td, e, true);
      return true;
    }

    /** A page table for row td of the child; false when memory is out. */
    method AddRow(ghost s0: State, ghost fd0: nat, ghost td0: nat, ghost size: nat, td: nat) returns (ok: bool)
      requires Valid() && Forking(s0, Abs(), fd0, td0, size, td, 0, td) && MayFork(s0, fd0, td0, size)
      requires InRange(td, td0, Dirs(size)) && s0.dir[td - td0 + fd0].Some?
      requires Ample(s0, Abs(), fd0, td0, size, td, 0, false)
      modifies pgDir, mem, memMap, swapBitmap, swapDev, `dirEntry, `pageEntry, `held
      ensures Valid() && Inv(Abs()) && (Backed(s0) ==> Backed(Abs())) && OutsideSame(s0, Abs(), td0, Dirs(size))
      ensures ok ==> Forking(s0, Abs(), fd0, td0, size, td, 0, td + 1) && HasTable(Abs(), td) && RestEmpty(Abs(), td, 0)
      ensures ok ==> Ample(s0, Abs(), fd0, td0, size, td, 0, true)
      ensures !ok ==> OutOfMemory(Abs()) && !Enough(s0, fd0, size)
      ensures forall d: nat | d < 1024 && d != td :: Abs().dir[d] == old(Abs()).dir[d]
    {
      ghost var s := Abs();
      assert s.dir[td].None?;
      ghost var vs;
      ok, vs := AllocTable(td);
      ReclaimForking(s0, s, vs, fd0, td0, size, td, 0, td);
      ReclaimsKeep(s, vs);
      RowAmple(s0, s, vs, Abs(), ok, fd0, td0, size, td);
      if ok { RowTable(s0, Reclaims(s, vs).value, fd0, td0, size, td); }
    }

    /** One directory of copy_page_tables. */
    method CopyDir(ghost s0: State, ghost fd0: nat, ghost td0: nat, ghost size: nat, fd: nat, td: nat, nr: nat)
      returns (ok: bool)
      requires Valid() && Forking(s0, Abs(), fd0, td0, size, td, 0, td) && MayFork(s0, fd0, td0, size)
      requires InRange(td, td0, Dirs(size)) && fd == td - td0 + fd0 && nr == CountIn(size, td - td0)
      requires Ample(s0, Abs(), fd0, td0, size, td, 0, false)
      modifies pgDir, mem, memMap, swapBitmap, swapDev, `dirEntry, `pageEntry, `held
      ensures Valid() && Inv(Abs()) && (Backed(s0) ==> Backed(Abs())) && OutsideSame(s0, Abs(), td0, Dirs(size))
      ensures ok ==> Forking(s0, Abs(), fd0, td0, size, td + 1, 0, td + 1)
      ensures ok ==> Ample(s0, Abs(), fd0, td0, size, td + 1, 0, false)
      ensures !ok ==> OutOfMemory(Abs()) && !Enough(s0, fd0, size)
    {
      assert Abs().dir[fd] == s0.dir[fd];
      if pgDir[fd].None? {
        EmptyRowForking(s0, Abs(), fd0, td0, size, td);
        AmpleRow(s0, Abs(), fd0, td0, size, td, 0, false);
        return true;
      }
      ok := AddRow(s0, fd0, td0, size, td);
      if !ok { return; }
      ParentTable(s0, Abs(), fd0, td0, size, td);
      ok := CopyRow(s0, fd0, td0, size, fd, td, nr);
    }

    /** copy_page_tables; false is its -1. The child's image rows are the parent's, because
        copy_process has already given it the same executable. Misaligned addresses and
        tables that already exist make the source panic. It fails only out of memory; if a frame
        is free for each table and each swapped page of the parent it succeeds and takes just these. */
    method CopyPageTables(from: nat, to: nat, size: nat) returns (ok: bool)
      requires Valid() && Inv(Abs())
      requires from % DIR_BYTES == 0 && to % DIR_BYTES == 0 && MayFork(Abs(), from / DIR_BYTES, to / DIR_BYTES, size)
      requires RowsMissing(Abs(), to / DIR_BYTES, to / DIR_BYTES + Dirs(size))
      modifies pgDir, mem, memMap, swapBitmap, swapDev, `dirEntry, `pageEntry, `held
      ensures Valid() && Inv(Abs()) && OutsideSame(old(Abs()), Abs(), to / DIR_BYTES, Dirs(size))
      ensures old(Backed(Abs())) ==> Backed(Abs())
      ensures ok ==> ChildSees(old(Abs()), Abs(), from / DIR_BYTES, to / DIR_BYTES, size,
        to / DIR_BYTES + Dirs(size), 0)
      ensures !ok ==> OutOfMemory(Abs())
      ensures Free(old(Abs())) >= Need(old(Abs()), from / DIR_BYTES, size, Dirs(size)) ==>
        ok && Free(Abs()) == Free(old(Abs())) - Need(old(Abs()), from / DIR_BYTES, size, Dirs(size))
    {
      ghost var s0 := Abs();
      AmpleStart(s0, from / DIR_BYTES, to / DIR_BYTES, size);
      var tmp := ((size + 0xFFF) / 4096) % 4096;
      if tmp == 0 && size != 0 { tmp := 1024; }
      ok := CopyDirs(s0, from / DIR_BYTES, to / DIR_BYTES, size, tmp, (size + 0x3FFFFF) / DIR_BYTES);
      if ok { AmpleEnd(s0, Abs(), from / DIR_BYTES, to / DIR_BYTES, size); }
    }

    /** Its loop over the directories. */
    method CopyDirs(ghost s0: State, from: nat, to: nat, ghost size: nat, tmp: nat, dirs: nat) returns (ok: bool)
      requires Valid() && MayFork(s0, from, to, size) && Forking(s0, Abs(), from, to, size, to, 0, to)
      requires Ample(s0, Abs(), from, to, size, to, 0, false) && tmp == LastCount(size) && dirs == Dirs(size)
      modifies pgDir, mem, memMap, swapBitmap, swapDev, `dirEntry, `pageEntry, `held
      ensures Valid()
      ensures !ok ==> Inv(Abs()) && (Backed(s0) ==> Backed(Abs())) && OutsideSame(s0, Abs(), to, Dirs(size))
      ensures ok ==> Forking(s0, Abs(), from, to, size, to + dirs, 0, to + dirs)
      ensures ok ==> Ample(s0, Abs(), from, to, size, to + dirs, 0, false)
      ensures !ok ==> OutOfMemory(Abs()) && !Enough(s0, from, size)
    {
      var n, fd, td := dirs, from, to;
      while n > 0
        invariant 0 <= n <= dirs && td == to + dirs - n && fd == from + dirs - n && Valid()
        invariant Forking(s0, Abs(), from, to, size, td, 0, td) && Ample(s0, Abs(), from, to, size, td, 0, false)
      {
        n := n - 1;
        CountNow(size, to, td, n, tmp, dirs);
        ok := CopyDir(s0, from, to, size, fd, td, if n == 0 then tmp else 1024);
        if !ok { return; }
        fd, td := fd + 1, td + 1;
      }
      ForkedUpTo(s0, Abs(), from, to, size, td, dirs);
      return true;
    }

    /** free_page_tables on one word: the page or slot goes back, and neither complaint of
        free_page or swap_free is heard. */
    method ClearTurn(d: nat, e: nat)
      requires Valid() && Inv(Abs()) && User(d, e) && HasTable(Abs(), d)
      modifies mem, memMap, swapBitmap
      ensures Valid() && ClearEntry(old(Abs()), d, e) == Some(Abs())
    {
      ghost var s := Abs();
      var page := mem[pgDir[d].value].table[e];
      match page
      case Absent =>
        EntryUnchanged(s, d, e);
      case Present(pfn, _, _) =>
        assert GoodPte(s, page);
        InRefs(s, AsPage(d, e), pfn);
        assert |Refs(s, pfn)| > 0;
        var panic := FreePage(pfn);
        assert !panic;
        SetPte(d, e, Absent);
      case Swapped(nr) =>
        assert HoldsSlot(s, d, e, nr);
        var bad := SwapFree(nr);
        assert !bad;
        SetPte(d, e, Absent);
    }

    /** free_page_tables (and its "wrong alignment" / "swapper memory" demands): every table
        of the range is gone, and nothing else has changed. */
    method FreePageTables(from: nat, size: nat)
      requires Valid() && Inv(Abs())
      requires from % DIR_BYTES == 0 && from / DIR_BYTES >= FIRST_VM_DIR && from / DIR_BYTES + Dirs(size) <= 1024
      modifies pgDir, mem, memMap, swapBitmap
      ensures Valid() && Freeing(old(Abs()), Abs(), from / DIR_BYTES, Dirs(size))
      ensures RowsMissing(Abs(), from / DIR_BYTES, from / DIR_BYTES + Dirs(size))
    {
      ghost var s0, td := Abs(), from / DIR_BYTES;
      var n := (size + 0x3FFFFF) / DIR_BYTES;
      var dir := from / DIR_BYTES;
      while n > 0
        invariant n <= Dirs(size) && dir == td + Dirs(size) - n && Valid()
        invariant Freeing(s0, Abs(), td, Dirs(size)) && RowsMissing(Abs(), td, dir)
      {
        n := n - 1;
        if pgDir[dir].Some? {
          FreeRow(s0, td, Dirs(size), dir);
        }
        dir := dir + 1;
      }
    }

    method FreeRow(ghost s0: State, ghost td: nat, ghost n: nat, d: nat)
      requires Valid() && Freeing(s0, Abs(), td, n) && InRange(d, td, n) && FIRST_VM_DIR <= d < 1024 && pgDir[d].Some?
      modifies pgDir, mem, memMap, swapBitmap
      ensures Valid() && Freeing(s0, Abs(), td, n) && Abs().dir == old(Abs()).dir[d := None]
    {
      UserTable(Abs(), d);
      var nr := 0;
      while nr < 1024
        invariant 0 <= nr <= 1024 && Valid() && Freeing(s0, Abs(), td, n) && HasTable(Abs(), d)
        invariant Abs().dir == old(Abs()).dir
        invariant forall x: nat | x < nr :: Entry(Abs(), d, x) == Absent
      {
        ClearFreeing(s0, Abs(), td, n, d, nr);
        ClearTurn(d, nr);
        nr := nr + 1;
      }
      DropFreeing(s0, Abs(), td, n, d);
      FreeTable(d);
    }

    /** free_page on a page table, and its directory word cleared. */
    method FreeTable(d: nat)
      requires Valid() && Inv(Abs()) && FIRST_VM_DIR <= d < 1024 && pgDir[d].Some?
      modifies pgDir, memMap
      ensures Valid() && HasTable(old(Abs()), d) && Abs() == DropTable(old(Abs()), d)
    {
      ghost var s := Abs();
      UserTable(s, d);
      InRefs(s, AsTable(d), s.dir[d].value);
      assert |Refs(s, s.dir[d].value)| > 0;
      var panic := FreePage(pgDir[d].value);
      assert !panic;
      pgDir[d] := None;
    }

    /** copy_mem for task slot nr: the child sees the parent's memory, or, if memory runs
        out half-way, as in the state `failed`, the roll-back leaves it empty. Either way nobody
        else sees a change. */
    method CopyMem(oldBase: nat, nr: nat, limit: nat) returns (ok: bool, ghost failed: State)
      requires Valid() && Inv(Abs()) && 0 < nr < NR_TASKS
      requires oldBase % DIR_BYTES == 0 && MayFork(Abs(), oldBase / DIR_BYTES, TASK_DIRS * nr, limit)
      requires RowsMissing(Abs(), TASK_DIRS * nr, TASK_DIRS * nr + Dirs(limit))
      modifies pgDir, mem, memMap, swapBitmap, swapDev, `dirEntry, `pageEntry, `held
      ensures Valid() && Inv(Abs()) && OutsideSame(old(Abs()), Abs(), TASK_DIRS * nr, Dirs(limit))
      ensures old(Backed(Abs())) ==> Backed(Abs())
      ensures ok ==> ChildSees(old(Abs()), Abs(), oldBase / DIR_BYTES, TASK_DIRS * nr, limit,
        TASK_DIRS * nr + Dirs(limit), 0)
      ensures !ok ==> RowsMissing(Abs(), TASK_DIRS * nr, TASK_DIRS * nr + Dirs(limit))
      ensures !ok ==> OutOfMemory(failed) && OutsideSame(old(Abs()), failed, TASK_DIRS * nr, Dirs(limit))
      ensures !ok ==> Freeing(failed, Abs(), TASK_DIRS * nr, Dirs(limit))
      ensures Free(old(Abs())) >= Need(old(Abs()), oldBase / DIR_BYTES, limit, Dirs(limit)) ==>
        ok && Free(Abs()) == Free(old(Abs())) - Need(old(Abs()), oldBase / DIR_BYTES, limit, Dirs(limit))
    {
      var newBase := nr * 0x4000000;
      assert newBase == (TASK_DIRS * nr) * DIR_BYTES;
      ghost var s0 := Abs();
      ok := CopyPageTables(oldBase, newBase, limit);
      failed := Abs();
      if !ok {
        FreePageTables(newBase, limit);
        OutsideTrans(s0, failed, Abs(), TASK_DIRS * nr, Dirs(limit));
      }
    }

    /** write_verify: a present read-only page is made writable; nothing else is touched.
        The words hold if reclaim leaves the page alone, which the caller knows if a frame is free
        or the page is the kernel's. A clean page afterwards equals its image as before, unless
        the page was dirty and had to be copied. */
    method WriteVerify(d: nat, e: nat) returns (ok: bool, ghost vs: seq<(nat, nat)>)
      requires Valid() && Inv(Abs()) && User(d, e)
      modifies mem, memMap, swapBitmap, swapDev, `dirEntry, `pageEntry, `held
      ensures Valid() && Reclaims(old(Abs()), vs).Some?
      ensures !old(Entry(Abs(), d, e)).Present? || IsRw(old(Entry(Abs(), d, e))) ==>
        ok && Abs() == old(Abs()) && vs == []
      ensures !ok ==> Abs() == Reclaims(old(Abs()), vs).value && OutOfMemory(Abs())
      ensures old(TakePage(Abs())).Some? ==> ok && vs == []
      ensures CannotHit(old(Abs()), d, e) ==> (d, e) !in vs
      ensures ok && (d, e) !in vs ==> Inv(Abs()) && (Entry(Abs(), d, e).Present? ==> IsRw(Entry(Abs(), d, e)))
      ensures ok && (d, e) !in vs ==> Verified(old(Abs()), Abs(), d, e)
    {
      ghost var s0 := Abs();
      UserTable(s0, d);
      if pgDir[d].None? { return true, []; }
      var p := mem[pgDir[d].value].table[e];
      if !p.Present? || p.rw { return true, []; }
      ok, vs := UnWriteProtect(d, e);
      if CannotHit(s0, d, e) { NotHit(s0, d, e, vs); }
      if ok && (d, e) !in vs { UnWpEffect(s0, d, e, vs); }
    }

    /** put_fs_byte on a page that is present, whatever its write permission; on any other it faults
        first. */
    method PutFsByte(d: nat, e: nat, i: nat, b: nat)
      requires Valid() && Inv(Abs()) && User(d, e) && Entry(Abs(), d, e).Present? && i < 4096
      modifies mem
      ensures Valid() && KernelStore(old(Abs()), d, e, i, b) == Some(Abs())
    {
      ghost var s := Abs();
      KernelStoreIs(s, d, e, i, b);
      var p := mem[pgDir[d].value].table[e];
      mem[p.pfn] := Bytes(mem[p.pfn].page[i := b]);
      assert Abs() == SetBytes(s, p.pfn, s.mem[p.pfn].page[i := b]);
      SetPte(d, e, p.(dirty := true));
    }

    /** try_to_share with the task whose directory is fd: 1 when the page is shared, 0 when
        there is none to share or no memory for a table. Unless reclaim takes the source, as it
        cannot while a frame is free or if the target has a table, the target sees that page. */
    method ShareWith(fd: nat, d: nat, e: nat) returns (shared: bool, ghost vs: seq<(nat, nat)>)
      requires Valid() && Inv(Abs()) && User(fd, e) && User(d, e) && fd != d && Entry(Abs(), d, e) == Absent
      modifies pgDir, mem, memMap, swapBitmap, swapDev, `dirEntry, `pageEntry, `held
      ensures Valid() && Reclaims(old(Abs()), vs).Some?
      ensures shared ==> TryToShare(old(Abs()), fd, d, e, vs) == Some(Abs()) && Sharable(old(Abs()), fd, e)
      ensures !shared ==> Abs() == Reclaims(old(Abs()), vs).value
      ensures !shared && Sharable(old(Abs()), fd, e) ==> OutOfMemory(Abs())
      ensures !Sharable(old(Abs()), fd, e) ==> vs == []
      ensures old(TakePage(Abs())).Some? || old(Abs()).dir[d].Some? ==>
        shared == Sharable(old(Abs()), fd, e) && vs == []
      ensures shared && (fd, e) !in vs && fd % TASK_DIRS == d % TASK_DIRS ==> Shared(old(Abs()), Abs(), fd, d, e)
    {
      ghost var s0 := Abs();
      UserTable(s0, fd);
      if pgDir[fd].None? { return false, []; }
      var p := mem[pgDir[fd].value].table[e];
      if !p.Present? || p.dirty { return false, []; }
      assert GoodPte(s0, p);
      if p.pfn >= high || p.pfn < LOWF { return false, []; }
      shared, vs := MapShared(fd, d, e, p.pfn);
      if shared && (fd, e) !in vs && fd % TASK_DIRS == d % TASK_DIRS { ShareEffect(s0, fd, d, e, vs); }
    }

    /** try_to_share from the place where it looks for the target's table. */
    method MapShared(fd: nat, d: nat, e: nat, phys: nat) returns (shared: bool, ghost vs: seq<(nat, nat)>)
      requires Valid() && Inv(Abs()) && User(fd, e) && User(d, e) && fd != d && Entry(Abs(), d, e) == Absent
      requires HasTable(Abs(), fd) && IsClean(Entry(Abs(), fd, e)) && LOWF <= phys < TOTALF
      requires Entry(Abs(), fd, e).pfn == phys
      modifies pgDir, mem, memMap, swapBitmap, swapDev, `dirEntry, `pageEntry, `held
      ensures Valid() && Reclaims(old(Abs()), vs).Some?
      ensures shared ==> TryToShare(old(Abs()), fd, d, e, vs) == Some(Abs())
      ensures !shared ==> Abs() == Reclaims(old(Abs()), vs).value && OutOfMemory(Abs())
      ensures old(TakePage(Abs())).Some? || old(Abs()).dir[d].Some? ==> shared && vs == []
    {
      ghost var s0 := Abs();
      shared, vs := TableFor(d);
      if !shared { return; }
      TablesForShare(s0, vs, Abs(), fd, d, e);
      StoreShared(fd, d, e, phys);
    }

    /** The last lines of try_to_share. */
    method StoreShared(fd: nat, d: nat, e: nat, phys: nat)
      requires Valid() && fd < 1024 && d < 1024 && e < 1024 && LOWF <= phys < TOTALF
      requires HasTable(Abs(), fd) && HasTable(Abs(), d) && !Entry(Abs(), d, e).Present?
      modifies mem, memMap
      ensures Valid() && ShareWords(old(Abs()), fd, d, e, phys) == Some(Abs())
    {
      ghost var s := Abs();
      var q := Writable(mem[pgDir[fd].value].table[e], false);
      SetPte(fd, e, q);
      SetPte(d, e, q);
      memMap[phys - LOWF] := memMap[phys - LOWF] + 1;
      assert memMap[..] == AddTo(s.memMap, phys, 1);
    }
  }

  /** A page that may be shared: present, clean, and in main memory. */
  predicate Sharable(s: State, d: nat, e: nat) {
    IsClean(Entry(s, d, e)) && LOWF <= Entry(s, d, e).pfn < s.high
  }

  /** The target has the page of the source, and every other page is kept. */
  ghost predicate Shared(s: State, s': State, fd: nat, d: nat, e: nat) {
    && Inv(s') && View(s', d, e) == View(s, fd, e) && !IsRw(Entry(s', d, e)) && !IsRw(Entry(s', fd, e))
    && (forall d': nat, e': nat | User(d', e') && !(d' == d && e' == e) :: Kept(s, d', s', d', e'))
  }

  lemma TablesForShare(s0: State, vs: seq<(nat, nat)>, s1: State, fd: nat, d: nat, e: nat)
    requires Inv(s0) && Inv(s1) && User(fd, e) && User(d, e) && HasTable(s0, fd) && Entry(s0, d, e) == Absent
    requires HasTable(s1, d) && Reclaims(s0, vs).Some?
    requires s0.dir[d].Some? ==> s1 == Reclaims(s0, vs).value
    requires s0.dir[d].None? ==> var s := Reclaims(s0, vs).value;
      TakePage(s).Some? && s1 == NewTable(TakePage(s).value, d, TakenFrame(s))
    ensures HasTable(s1, fd) && Entry(s1, d, e) == Absent
  {
    ReclaimsKeep(s0, vs);
    if s0.dir[d].None? { NewTableStep(Reclaims(s0, vs).value, d); }
    UserTable(s1, fd);
  }

  lemma ShareEffect(s: State, fd: nat, d: nat, e: nat, vs: seq<(nat, nat)>)
    requires Inv(s) && TryToShare(s, fd, d, e, vs).Some? && Reclaims(s, vs).Some? && (fd, e) !in vs
    requires fd % TASK_DIRS == d % TASK_DIRS && fd != d && Entry(s, d, e) == Absent && (s.dir[d].Some? ==> vs == [])
    ensures Shared(s, TryToShare(s, fd, d, e, vs).value, fd, d, e)
  {
    ReclaimsKeep(s, vs);
    var s1 := Reclaims(s, vs).value;
    var phys := Entry(s, fd, e).pfn;
    assert GoodPte(s, Entry(s, fd, e));
    var s3 := s1;
    if s.dir[d].None? {
      NewTableStep(s1, d);
      s3 := NewTable(TakePage(s1).value, d, TakenFrame(s1));
      forall d': nat, e': nat | User(d', e') ensures Kept(s1, d', s3, d', e') {
        assert Entry(s3, d', e') == Entry(s1, d', e');
      }
      AllKeptTrans(s, s1, s3);
    }
    ShareWordsGood(s3, fd, d, e, phys);
    MapBothStep(s3, fd, d, e);
    PutKept(s, s3, MapBoth(s3, fd, d, e).value, d, e);
  }

  /** Nothing is in use after mem_init. */
  lemma FreshInv(s: State)
    requires forall d: nat | d < 1024 :: s.dir[d] == None
    requires LOWF <= s.start <= s.high <= TOTALF && s.held == {}
    requires forall k <- s.usable :: 0 < k < SWAP_SLOTS
    requires forall k: nat | 0 < k < SWAP_SLOTS :: s.bits[k] == (k in s.usable)
    requires forall j | 0 <= j < TOTALF - LOWF :: s.memMap[j] == if s.start - LOWF <= j < s.high - LOWF then 0 else USED
    ensures Inv(s) && Backed(s)
  {
    forall f: nat | LOWF <= f < TOTALF ensures Count(s, f) == if Managed(s, f) then |Refs(s, f)| else USED {
      assert Refs(s, f) == {};
    }
  }

  /** The frame that is about to be mapped, after the target has its table. */
  lemma HeldStays(s0: State, vs: seq<(nat, nat)>, s1: State, d: nat, e: nat, f: nat)
    requires Inv(s0) && User(d, e) && f in s0.held && Entry(s0, d, e) == Absent && Reclaims(s0, vs).Some?
    requires s0.dir[d].Some? ==> s1 == Reclaims(s0, vs).value
    requires s0.dir[d].None? ==> var s := Reclaims(s0, vs).value;
      TakePage(s).Some? && s1 == NewTable(TakePage(s).value, d, TakenFrame(s))
    ensures Inv(s1) && HasTable(s1, d) && f in s1.held && s1.held == s0.held && s1.image == s0.image && AllKept(s0, s1)
    ensures Entry(s1, d, e) == Absent && f < TOTALF && s1.mem[f] == s0.mem[f] && s1.mem[f].Bytes?
  {
    ReclaimsKeep(s0, vs);
    var s := Reclaims(s0, vs).value;
    UserTable(s, d);
    if s0.dir[d].None? {
      TableViews(s, d);
      AllKeptTrans(s0, s, s1);
    }
  }

  /** put_page and put_dirty_page once there is a table. */
  lemma PutEffect(s0: State, s1: State, d: nat, e: nat, f: nat, dirty: bool)
    requires Inv(s1) && User(d, e) && HasTable(s1, d) && f in s1.held && Entry(s1, d, e) == Absent
    requires f < TOTALF && s1.mem[f].Bytes? && AllKept(s0, s1) && s1.image == s0.image
    ensures var s := PutPage(s1, d, e, f, dirty);
      && Inv(s) && Entry(s, d, e) == Present(f, true, dirty) && View(s, d, e) == s1.mem[f].page
      && s == SetEntry(s1, d, e, Present(f, true, dirty)).(held := s1.held - {f}) && s.mem[f] == s1.mem[f]
      && (forall d': nat, e': nat | User(d', e') && !(d' == d && e' == e) :: Kept(s0, d', s, d', e'))
      && (Backed(s0) && (!dirty ==> s1.mem[f].page == ImageOf(s0, d, e)) ==> Backed(s))
  {
    var q := Present(f, true, dirty);
    assert GoodPte(s1, q);
    RetargetInv(s1, d, e, q);
    RetargetView(s1, d, e, q);
    RetargetEntries(s1, d, e, q);
    var s := PutPage(s1, d, e, f, dirty);
    PutKept(s0, s1, s, d, e);
    if Backed(s0) && (!dirty ==> s1.mem[f].page == ImageOf(s0, d, e)) {
      forall d': nat, e': nat | User(d', e') ensures BackedAt(s, d', e') {
        if (d', e') != (d, e) { assert BackedAt(s0, d', e') && Kept(s0, d', s, d', e'); }
      }
    }
  }

  /** What one turn of the copy loop finds. */
  lemma TurnReady(s0: State, s: State, fd: nat, td: nat, size: nat, dc: nat, e: nat)
    requires Forking(s0, s, fd, td, size, dc, e, dc + 1) && MayFork(s0, fd, td, size) && RestEmpty(s, dc, e)
    requires InRange(dc, td, Dirs(size)) && e < CountIn(size, dc - td)
    requires s.dir[dc].Some? && s.dir[dc - td + fd].Some?
    ensures var f := dc - td + fd;
      && e < 1024 && User(dc, e) && f < 1024 && f != dc && HasTable(s, dc) && HasTable(s, f)
      && Entry(s, dc, e) == Absent && s.image[dc] == s.image[f] && CopySource(s, f, e)
  {
    assert SameRow(s0, fd, td, dc);
    SourceStays(s0, s, fd, td, Dirs(size), size);
    SourceAt(s, fd, Dirs(size), size, dc - td + fd, e);
    UserTable(s, dc);
    ParentTable(s0, s, fd, td, size, dc);
  }

  /** What it leaves. */
  lemma TurnDone(s0: State, s: State, vs: seq<(nat, nat)>, s': State, ok: bool, fd: nat, td: nat, size: nat,
      dc: nat, e: nat)
    requires Forking(s0, s, fd, td, size, dc, e, dc + 1) && MayFork(s0, fd, td, size) && RestEmpty(s, dc, e)
    requires InRange(dc, td, Dirs(size)) && e < 1024 && e < CountIn(size, dc - td) && Reclaims(s, vs).Some?
    requires ok ==> CopyEntry(Reclaims(s, vs).value, dc - td + fd, dc, e) == Some(s')
    requires !ok ==> s' == Reclaims(s, vs).value
    ensures Inv(s') && (Backed(s0) ==> Backed(s')) && OutsideSame(s0, s', td, Dirs(size)) && s'.dir == s.dir
    ensures ok ==> Forking(s0, s', fd, td, size, dc, e + 1, dc + 1) && RestEmpty(s', dc, e + 1)
  {
    ReclaimForking(s0, s, vs, fd, td, size, dc, e, dc + 1);
    ReclaimsKeep(s, vs);
    if ok { EntryForking(s0, Reclaims(s, vs).value, fd, td, size, dc, e); }
  }

  lemma RowTable(s0: State, s: State, fd: nat, td: nat, size: nat, dc: nat)
    requires Forking(s0, s, fd, td, size, dc, 0, dc) && TakePage(s).Some? && MayFork(s0, fd, td, size)
    requires InRange(dc, td, Dirs(size))
    ensures var s2 := TakePage(s).value;
      && TakenFrame(s) < TOTALF && s2.dir == s.dir
      && var s' := NewTable(s2, dc, TakenFrame(s));
      && Inv(s') && (Backed(s0) ==> Backed(s')) && OutsideSame(s0, s', td, Dirs(size))
      && Forking(s0, s', fd, td, size, dc, 0, dc + 1) && HasTable(s', dc) && RestEmpty(s', dc, 0)
  {
    TakePageInv(s);
    TableForking(s0, s, fd, td, size, dc);
  }

  lemma PutKept(s0: State, s1: State, s: State, d: nat, e: nat)
    requires AllKept(s0, s1) && s1.image == s0.image && OthersSee(s1, s, d, e)
    ensures forall d': nat, e': nat | User(d', e') && !(d' == d && e' == e) :: Kept(s0, d', s, d', e')
  {
    forall d': nat, e': nat | User(d', e') && !(d' == d && e' == e) ensures Kept(s0, d', s, d', e') {
      OthersKept(s1, s, d, e, d', e');
      KeptTrans(s0, d', s1, d', s, d', e');
    }
  }

  ghost function Presents(s: State): set<(nat, nat)> {
    set d: nat, e: nat | d < 1024 && e < 1024 && User(d, e) && Entry(s, d, e).Present? :: (d, e)
  }

  /** Each eviction leaves one present page fewer, so get_free_page ends. */
  lemma EvictShrinks(s: State, d: nat, e: nat)
    requires Inv(s) && User(d, e) && Evict(s, d, e).Some?
    ensures Presents(Evict(s, d, e).value) < Presents(s)
  {
    EvictStep(s, d, e);
    var s' := Evict(s, d, e).value;
    forall x | x in Presents(s') ensures x in Presents(s) {
      assert Entry(s', x.0, x.1) == Entry(s, x.0, x.1);
    }
    assert (d, e) in Presents(s) && (d, e) !in Presents(s');
  }

  /** Setting the write bit of a sole owner's entry settles to no change of counts. */
  lemma OwnerKeepsFrame(s: State, d: nat, e: nat)
    requires Inv(s) && User(d, e) && HasTable(s, d) && Entry(s, d, e).Present? && LOWF <= Entry(s, d, e).pfn < TOTALF
    requires Count(s, Entry(s, d, e).pfn) == 1
    ensures Unshare(s, d, e, false) == Some(SetEntry(s, d, e, Entry(s, d, e).(rw := true)))
  {
    var p := Entry(s, d, e);
    if p.pfn in s.held { SoleUse(s, p.pfn, AsKernel, AsPage(d, e)); }
    assert AddTo(AddTo(s.memMap, p.pfn, -1), p.pfn, 1) == s.memMap;
    assert s.held - {p.pfn} == s.held;
  }

  /** Setting a dirty bit settles to no change of counts. */
  lemma DirtyIsSet(s: State, d: nat, e: nat)
    requires Inv(s) && User(d, e) && HasTable(s, d) && Entry(s, d, e).Present?
    ensures Retarget(s, d, e, Entry(s, d, e).(dirty := true)) == SetEntry(s, d, e, Entry(s, d, e).(dirty := true))
  {
    var p := Entry(s, d, e);
    assert GoodPte(s, p);
    if p.pfn in s.held { SoleUse(s, p.pfn, AsKernel, AsPage(d, e)); }
    if p.pfn >= LOWF {
      InRefs(s, AsPage(d, e), p.pfn);
      assert |Refs(s, p.pfn)| > 0;
    }
    assert AddTo(AddTo(s.memMap, p.pfn, -1), p.pfn, 1) == s.memMap;
    assert s.held - {p.pfn} == s.held;
  }

  /** The kernel's store is one byte and one dirty bit. */
  lemma KernelStoreIs(s: State, d: nat, e: nat, i: nat, b: nat)
    requires Inv(s) && User(d, e) && Entry(s, d, e).Present? && i < 4096
    ensures var p := Entry(s, d, e);
      && p.pfn < TOTALF && s.mem[p.pfn].Bytes?
      && var s1 := SetBytes(s, p.pfn, s.mem[p.pfn].page[i := b]);
      && HasTable(s1, d) && Entry(s1, d, e) == p
      && KernelStore(s, d, e, i, b) == Some(SetEntry(s1, d, e, p.(dirty := true)))
  {
    var p := Entry(s, d, e);
    assert GoodPte(s, p);
    SetBytesInv(s, p.pfn, s.mem[p.pfn].page[i := b]);
    var s1 := SetBytes(s, p.pfn, s.mem[p.pfn].page[i := b]);
    UserTable(s, d);
    UserTable(s1, d);
    DirtyIsSet(s1, d, e);
  }

  /** swap_in after its reclaims is a filled frame, one store and one slot returned. */
  lemma SwapInFacts(s0: State, vs: seq<(nat, nat)>, d: nat, e: nat)
    requires Inv(s0) && User(d, e) && Entry(s0, d, e).Swapped? && Reclaims(s0, vs).Some?
    ensures Entry(s0, d, e).slot < SWAP_SLOTS
    ensures var s := Reclaims(s0, vs).value;
      && (TakePage(s).None? ==> SwapIn(s, d, e).None?)
      && (TakePage(s).Some? ==>
            var f, k, s2 := TakenFrame(s), Entry(s0, d, e).slot, TakePage(s).value;
            && HasTable(s2, d) && f < TOTALF && s2.mem[f].Bytes? && s2.swap == s.swap && s2.bits == s.bits
            && var s3 := SetBytes(s2, f, s.swap[k]);
            && HasTable(s3, d)
            && SwapIn(s, d, e) ==
                 Some(SetEntry(s3, d, e, Present(f, true, true)).(held := s2.held - {f}, bits := s.bits[k := true])))
  {
    assert HoldsSlot(s0, d, e, Entry(s0, d, e).slot);
    ReclaimsKeep(s0, vs);
    var s := Reclaims(s0, vs).value;
    UserTable(s0, d);
    UserTable(s, d);
    if TakePage(s).Some? {
      TakePageInv(s);
      UserTable(TakePage(s).value, d);
      FreshPage(s, s.swap[Entry(s0, d, e).slot]);
    }
  }

  /** Reclaim and the frame it found leave a swapped page of fd and an empty entry of td. */
  lemma AfterReclaim(s0: State, vs: seq<(nat, nat)>, fd: nat, td: nat, e: nat)
    requires Inv(s0) && User(td, e) && User(fd, e) && HasTable(s0, td) && HasTable(s0, fd)
    requires Entry(s0, td, e) == Absent && Entry(s0, fd, e).Swapped?
    requires Reclaims(s0, vs).Some? && TakePage(Reclaims(s0, vs).value).Some?
    ensures var s := Reclaims(s0, vs).value;
      var s2 := TakePage(s).value;
      && Inv(s) && HasTable(s, fd) && HasTable(s, td) && HasTable(s2, fd) && HasTable(s2, td)
      && Entry(s, fd, e) == Entry(s0, fd, e) && Entry(s, td, e) == Absent && s.image == s0.image
      && Entry(s0, fd, e).slot < SWAP_SLOTS && !s.bits[Entry(s0, fd, e).slot]
      && TakenFrame(s) < TOTALF && s2.mem[TakenFrame(s)].Bytes? && TakenFrame(s) in s2.held
  {
    ReclaimsKeep(s0, vs);
    var s := Reclaims(s0, vs).value;
    TakePageInv(s);
    UserTable(s, fd);
    UserTable(s, td);
    assert HoldsSlot(s, fd, e, Entry(s0, fd, e).slot);
  }

  /** A page that is copied when it is made writable: read-only, and not its frame's only use. */
  predicate Copies(s: State, d: nat, e: nat) {
    var p := Entry(s, d, e);
    p.Present? && !p.rw && !(LOWF <= p.pfn < TOTALF && Count(s, p.pfn) == 1)
  }

  /** What write_verify does to what tasks see: nothing but what reclaim may lose, and with clean
      pages backed they stay so exactly if the page is not copied or equals its image, as any
      clean one does. */
  ghost predicate Verified(s: State, s': State, d: nat, e: nat) {
    && (forall d': nat, e': nat | User(d', e') && !(d' == d && e' == e) :: Kept(s, d', s', d', e'))
    && View(s', d, e) == View(s, d, e)
    && (Backed(s) ==>
          && SameViews(s, s')
          && (Backed(s') <==> Copies(s, d, e) ==> View(s, d, e) == ImageOf(s, d, e))
          && (IsClean(Entry(s, d, e)) && Entry(s, d, e).pfn >= LOWF ==> Backed(s')))
  }

  /** un_wp_page that reclaim does not hit: writable, and seen by nobody. */
  lemma UnWpEffect(s: State, d: nat, e: nat, vs: seq<(nat, nat)>)
    requires Inv(s) && UnWpPage(s, d, e, vs).Some? && Reclaims(s, vs).Some? && (d, e) !in vs && !IsRw(Entry(s, d, e))
    ensures Inv(UnWpPage(s, d, e, vs).value) && IsRw(Entry(UnWpPage(s, d, e, vs).value, d, e))
    ensures Verified(s, UnWpPage(s, d, e, vs).value, d, e)
  {
    var s' := UnWpPage(s, d, e, vs).value;
    if !Copies(s, d, e) {
      UnshareStep(s, d, e, false);
      OwnerVerified(s, d, e);
    } else {
      UnWpAvoiding(s, d, e, vs);
      ReclaimsKeep(s, vs);
      CopyVerified(s, Reclaims(s, vs).value, d, e, vs);
    }
  }

  lemma OwnerVerified(s: State, d: nat, e: nat)
    requires Inv(s) && User(d, e) && Unshare(s, d, e, false).Some? && !Copies(s, d, e)
    ensures Verified(s, Unshare(s, d, e, false).value, d, e)
  {
    UnshareStep(s, d, e, false);
    var s' := Unshare(s, d, e, false).value;
    forall d': nat, e': nat | User(d', e') ensures Kept(s, d', s', d', e') {
      if (d', e') != (d, e) { OthersKept(s, s', d, e, d', e'); }
    }
    KeptBacked(s, s');
  }

  lemma CopyVerified(s: State, s1: State, d: nat, e: nat, vs: seq<(nat, nat)>)
    requires Inv(s) && Inv(s1) && User(d, e) && Unshare(s1, d, e, true).Some? && Copies(s, d, e)
    requires AllKept(s, s1) && Reclaimed(s, s1, vs) && (d, e) !in vs
    ensures Inv(Unshare(s1, d, e, true).value) && IsRw(Entry(Unshare(s1, d, e, true).value, d, e))
    ensures Verified(s, Unshare(s1, d, e, true).value, d, e)
  {
    UnshareStep(s1, d, e, true);
    CopyAtRisk(s1, d, e);
    var s' := Unshare(s1, d, e, true).value;
    PutKept(s, s1, s', d, e);
    KeptBacked(s, s1);
    assert GoodPte(s, Entry(s, d, e));
    assert View(s1, d, e) == View(s, d, e);
    if Backed(s) {
      assert BackedAt(s, d, e);
      forall d': nat, e': nat | User(d', e') ensures View(s', d', e') == View(s, d', e') {
        if (d', e') != (d, e) { assert Kept(s, d', s', d', e') && BackedAt(s, d', e'); }
      }
    }
  }
}
