/** The memory manager's data: physical frames, the page directory and its tables, the
    byte counters of mem_map, and the swap device with its bitmap. */
module PagingState {
  import opened Wrappers

  const LOWF: nat := 0x300        // LOW_MEM >> 12
  const TOTALF: nat := 0x4000     // TOTAL_MEMORY >> 12
  const USED: nat := 100
  const NR_TASKS: nat := 64
  const TASK_DIRS: nat := 16      // TASK_SIZE >> 22
  const FIRST_VM_DIR: nat := 16   // FIRST_VM_PAGE >> 10
  const SWAP_SLOTS: nat := 32768

  type Page = p: seq<nat> | |p| == 4096 witness seq(4096, _ => 0)
  function ZeroPage(): Page { seq(4096, _ => 0) }

  /** A page-table word: zero, a swap slot stored as nr<<1, or a present page with its
      read/write and dirty bits. */
  datatype Pte = Absent | Swapped(slot: nat) | Present(pfn: nat, rw: bool, dirty: bool)

  type Table = t: seq<Pte> | |t| == 1024 witness seq(1024, _ => Absent)
  function EmptyTable(): Table { seq(1024, _ => Absent) }

  /** What a physical frame holds. */
  datatype Frame = Bytes(page: Page) | Ptes(table: Table)

  type PageDir = d: seq<Option<nat>> | |d| == 1024 witness seq(1024, _ => None)
  type Memory = m: seq<Frame> | |m| == TOTALF witness seq(TOTALF, _ => Bytes(ZeroPage()))
  type MemMap = m: seq<nat> | |m| == TOTALF - LOWF witness seq(TOTALF - LOWF, _ => 0)
  type SwapBits = b: seq<bool> | |b| == SWAP_SLOTS witness seq(SWAP_SLOTS, _ => false)
  type SwapDev = p: seq<Page> | |p| == SWAP_SLOTS witness seq<Page>(SWAP_SLOTS, _ => ZeroPage())

  type ImageRow = r: seq<Page> | |r| == 1024 witness seq<Page>(1024, _ => ZeroPage())
  type Image = i: seq<ImageRow> | |i| == 1024 witness seq<ImageRow>(1024, _ => NoImage())
  function NoImage(): ImageRow { seq<Page>(1024, _ => ZeroPage()) }

  /** `held` are frames the kernel itself owns (fresh from get_free_page and not yet in any
      table, task structures, pipe pages); `usable` are the slots of the swap device;
      `image[d][e]` is the page that a fault on an empty entry would bring in. */
  datatype State = State(
    dir: PageDir,
    mem: Memory,
    memMap: MemMap,
    held: set<nat>,
    start: nat,
    high: nat,
    bits: SwapBits,
    swap: SwapDev,
    usable: set<nat>,
    image: Image)

  /** One way in which a frame can be in use. */
  datatype Use = AsPage(d: nat, e: nat) | AsTable(d: nat) | AsKernel

  predicate User(d: nat, e: nat) {
    FIRST_VM_DIR <= d < 1024 && e < 1024
  }

  predicate HasTable(s: State, d: nat) {
    d < 1024 && s.dir[d].Some? && s.dir[d].value < TOTALF && s.mem[s.dir[d].value].Ptes?
  }

  function Entry(s: State, d: nat, e: nat): Pte {
    if HasTable(s, d) && e < 1024 then s.mem[s.dir[d].value].table[e] else Absent
  }

  function ImageOf(s: State, d: nat, e: nat): Page {
    if d < 1024 && e < 1024 then s.image[d][e] else ZeroPage()
  }

  predicate Maps(p: Pte, f: nat) {
    p.Present? && p.pfn == f
  }

  ghost predicate Uses(s: State, u: Use, f: nat) {
    match u
    case AsPage(d, e) => User(d, e) && Maps(Entry(s, d, e), f)
    case AsTable(d) => FIRST_VM_DIR <= d < 1024 && s.dir[d] == Some(f)
    case AsKernel => f in s.held
  }

  ghost function Universe(): set<Use> {
    (set d: nat, e: nat | d < 1024 && e < 1024 :: AsPage(d, e)) + (set d: nat | d < 1024 :: AsTable(d)) + {AsKernel}
  }

  ghost function Refs(s: State, f: nat): set<Use> {
    set u | u in Universe() && Uses(s, u, f)
  }

  lemma InRefs(s: State, u: Use, f: nat)
    ensures u in Refs(s, f) <==> Uses(s, u, f)
  {
    match u
    case AsPage(d, e) =>
      if User(d, e) { assert u in Universe(); }
    case AsTable(d) =>
      if d < 1024 { assert u in Universe(); }
    case AsKernel =>
  }

  predicate Managed(s: State, f: nat) {
    s.start <= f < s.high
  }

  function Count(s: State, f: nat): nat
    requires LOWF <= f < TOTALF
  {
    s.memMap[f - LOWF]
  }

  ghost predicate Shape(s: State) {
    && LOWF <= s.start <= s.high <= TOTALF
    && (forall f <- s.held :: Managed(s, f) && s.mem[f].Bytes?)
    && (forall d: nat | FIRST_VM_DIR <= d < 1024 && s.dir[d].Some? ::
          Managed(s, s.dir[d].value) && s.mem[s.dir[d].value].Ptes?)
    && (forall d: nat, e: nat | User(d, e) && Entry(s, d, e).Present? :: GoodPte(s, Entry(s, d, e)))
  }

  /** A present user entry names a frame of bytes; only pageable frames may be writable. */
  predicate GoodPte(s: State, p: Pte) {
    p.Present? ==>
      p.pfn < TOTALF && s.mem[p.pfn].Bytes? && (if p.pfn < LOWF then !p.rw else Managed(s, p.pfn))
  }

  /** Two different uses of one frame are both read-only mappings, at the same place of
      two task address spaces. */
  predicate Compatible(s: State, u: Use, v: Use) {
    u.AsPage? && v.AsPage? && !IsRw(Entry(s, u.d, u.e)) && !IsRw(Entry(s, v.d, v.e))
    && u.d % TASK_DIRS == v.d % TASK_DIRS && u.e == v.e
  }

  predicate IsRw(p: Pte) {
    p.Present? && p.rw
  }

  ghost predicate Exclusive(s: State) {
    forall f: nat, u: Use, v: Use | LOWF <= f && Uses(s, u, f) && Uses(s, v, f) && u != v :: Compatible(s, u, v)
  }

  ghost predicate Exact(s: State) {
    forall f: nat | LOWF <= f < TOTALF :: Count(s, f) == if Managed(s, f) then |Refs(s, f)| else USED
  }

  predicate HoldsSlot(s: State, d: nat, e: nat, k: nat) {
    User(d, e) && Entry(s, d, e) == Swapped(k)
  }

  /** A slot is free exactly when it is usable and no entry names it; no two entries name one slot. */
  ghost predicate SlotsExact(s: State) {
    && (forall k <- s.usable :: 0 < k < SWAP_SLOTS)
    && (forall k: nat | 0 < k < SWAP_SLOTS && k !in s.usable :: !s.bits[k])
    && (forall d: nat, e: nat, k: nat | HoldsSlot(s, d, e, k) :: k in s.usable && !s.bits[k])
    && (forall k <- s.usable | !s.bits[k] :: exists d: nat, e: nat :: HoldsSlot(s, d, e, k))
    && (forall d: nat, e: nat, d': nat, e': nat, k: nat | HoldsSlot(s, d, e, k) && HoldsSlot(s, d', e', k) ::
          d == d' && e == e')
  }

  ghost predicate Inv(s: State) {
    Shape(s) && Exclusive(s) && Exact(s) && SlotsExact(s)
  }

  /** Every clean present page equals what a fault would bring in, so dropping it loses nothing. */
  ghost predicate Backed(s: State) {
    forall d: nat, e: nat | User(d, e) :: BackedAt(s, d, e)
  }

  ghost predicate BackedAt(s: State, d: nat, e: nat) {
    var p := Entry(s, d, e);
    p.Present? && p.pfn >= LOWF && !p.dirty ==> View(s, d, e) == ImageOf(s, d, e)
  }

  /** The page a task sees at directory d, table index e. */
  function View(s: State, d: nat, e: nat): Page {
    match Entry(s, d, e)
    case Absent => ImageOf(s, d, e)
    case Swapped(k) => if k < SWAP_SLOTS then s.swap[k] else ZeroPage()
    case Present(f, _, _) => if f < TOTALF && s.mem[f].Bytes? then s.mem[f].page else ZeroPage()
  }
}
