/** When the memory manager's steps can be taken: what a refusal means. */
module PagingPossible {
  import opened Wrappers
  import opened PagingState
  import opened PagingOps
  import opened PagingSteps
  import opened PagingReclaim

  /** get_free_page has a frame without reclaim exactly if some count is zero. */
  lemma TakePageIff(s: State)
    ensures TakePage(s).Some? <==> exists f: nat :: LOWF <= f < TOTALF && Count(s, f) == 0
  {
    if f: nat :| LOWF <= f < TOTALF && Count(s, f) == 0 { assert s.memMap[f - LOWF] == 0; }
    if TakePage(s).Some? { assert Count(s, TakenFrame(s)) == 0; }
  }

  /** try_to_swap_out takes every clean page of main memory, and a dirty one that nobody else has if
      a slot is free for it. */
  lemma EvictIff(s: State, d: nat, e: nat)
    requires Inv(s) && User(d, e)
    ensures Evict(s, d, e).Some? <==>
      var p := Entry(s, d, e);
      && p.Present? && LOWF <= p.pfn < TOTALF
      && (p.dirty ==> Count(s, p.pfn) == 1 && exists k: nat :: 0 < k < SWAP_SLOTS && s.bits[k])
  {
    if Entry(s, d, e).Present? { assert GoodPte(s, Entry(s, d, e)); }
    if FirstSlot(s.bits, 1).Some? { assert s.bits[FirstSlot(s.bits, 1).value]; }
  }

  lemma TableFresh(s: State, page: Page, d: nat)
    requires Inv(s) && TakePage(s).Some? && FIRST_VM_DIR <= d < 1024 && s.dir[d].Some?
    ensures HasTable(s, d) && HasTable(SetBytes(TakePage(s).value, TakenFrame(s), page), d)
  {
    FreshPage(s, page);
    UserTable(s, d);
    UserTable(SetBytes(TakePage(s).value, TakenFrame(s), page), d);
  }

  /** swap_in fails only without a frame. */
  lemma SwapInIff(s: State, d: nat, e: nat)
    requires Inv(s) && User(d, e)
    ensures SwapIn(s, d, e).Some? <==> Entry(s, d, e).Swapped? && TakePage(s).Some?
  {
    if Entry(s, d, e).Swapped? && TakePage(s).Some? {
      var k := Entry(s, d, e).slot;
      TableFresh(s, if k < SWAP_SLOTS then s.swap[k] else ZeroPage(), d);
    }
  }

  /** So does put_page at an empty place of a table. */
  lemma InstallIff(s: State, d: nat, e: nat, page: Page, dirty: bool)
    requires Inv(s) && User(d, e)
    ensures InstallPage(s, d, e, page, dirty).Some? <==>
      s.dir[d].Some? && Entry(s, d, e) == Absent && TakePage(s).Some?
  {
    UserTable(s, d);
    if s.dir[d].Some? && TakePage(s).Some? { TableFresh(s, page, d); }
  }

  /** un_wp_page keeps a frame that is used once, and copies any present page if it gets a frame. */
  lemma UnshareIff(s: State, d: nat, e: nat, copy: bool)
    requires Inv(s) && User(d, e)
    ensures Unshare(s, d, e, copy).Some? <==>
      var p := Entry(s, d, e);
      p.Present? && if copy then TakePage(s).Some? else LOWF <= p.pfn < TOTALF && Count(s, p.pfn) == 1
  {
    if Entry(s, d, e).Present? {
      assert GoodPte(s, Entry(s, d, e));
      if copy && TakePage(s).Some? { TableFresh(s, s.mem[Entry(s, d, e).pfn].page, d); }
    }
  }

  /** A task can store wherever it may write. */
  lemma StoreByteIff(s: State, d: nat, e: nat, i: nat, b: nat)
    requires Inv(s) && User(d, e)
    ensures StoreByte(s, d, e, i, b).Some? <==> IsRw(Entry(s, d, e)) && i < 4096
  {
    if IsRw(Entry(s, d, e)) && i < 4096 {
      assert GoodPte(s, Entry(s, d, e));
      var f := Entry(s, d, e).pfn;
      SetBytesInv(s, f, s.mem[f].page[i := b]);
      UserTable(s, d);
      UserTable(SetBytes(s, f, s.mem[f].page[i := b]), d);
    }
  }

  /** fork's turn for one entry fails only for a swapped page without a frame. */
  lemma CopyEntryIff(s: State, fd: nat, td: nat, e: nat)
    requires Inv(s) && User(td, e) && CopySource(s, fd, e) && fd != td && HasTable(s, fd) && HasTable(s, td)
    requires Entry(s, td, e) == Absent && s.image[td] == s.image[fd]
    ensures CopyEntry(s, fd, td, e).Some? <==> Entry(s, fd, e).Swapped? ==> TakePage(s).Some?
  {
    InheritStep(s, fd, td, e);
    var s0 := Inherit(s, fd, td, e);
    SameImage(s, fd, td, e);
    match Entry(s, fd, e) {
      case Absent =>
      case Present(f, _, _) =>
        if f >= LOWF {
          ProtectStep(s, fd, e);
        }
      case Swapped(k) =>
        SwapInIff(s, fd, e);
        if TakePage(s).Some? {
          SwapInStep(s, fd, e);
          UserTable(s, td);
          UserTable(SwapIn(s, fd, e).value, td);
        }
    }
  }

  lemma SameImage(s: State, fd: nat, td: nat, e: nat)
    requires fd < 1024 && td < 1024 && s.image[td] == s.image[fd]
    ensures Inherit(s, fd, td, e) == s
  {
    if e < 1024 {
      assert s.image[td][e := s.image[fd][e]] == s.image[td];
      assert s.image[td := s.image[td]] == s.image;
    }
  }

  /** How many of the first n frames of main memory are free. */
  function Zeros(m: MemMap, n: nat): nat
    requires n <= TOTALF - LOWF
  {
    if n == 0 then 0 else Zeros(m, n - 1) + if m[n - 1] == 0 then 1 else 0
  }

  /** Free frames. */
  function Free(s: State): nat {
    Zeros(s.memMap, TOTALF - LOWF)
  }

  lemma {:induction false} NoZeros(m: MemMap, n: nat)
    requires n <= TOTALF - LOWF
    ensures Zeros(m, n) > 0 <==> exists j: nat :: j < n && m[j] == 0
  {
    if n > 0 { NoZeros(m, n - 1); }
  }

  lemma FreeIff(s: State)
    ensures Free(s) > 0 <==> TakePage(s).Some?
  {
    NoZeros(s.memMap, TOTALF - LOWF);
    if TakePage(s).Some? { assert s.memMap[TakenFrame(s) - LOWF] == 0; }
  }

  lemma {:induction false} ZerosChange(m: MemMap, j: nat, c: nat, n: nat)
    requires n <= TOTALF - LOWF && j < TOTALF - LOWF
    ensures Zeros(m[j := c], n) ==
      Zeros(m, n) + if j >= n || (m[j] == 0) == (c == 0) then 0 else if c == 0 then 1 else -1
  {
    if n > 0 { ZerosChange(m, j, c, n - 1); }
  }

  /** One frame fewer. */
  lemma FreeTaken(s: State)
    requires TakePage(s).Some?
    ensures Free(s) == Free(TakePage(s).value) + 1
  {
    ZerosChange(s.memMap, TakenFrame(s) - LOWF, 1, TOTALF - LOWF);
  }
}
