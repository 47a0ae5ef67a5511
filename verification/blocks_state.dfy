/** A file's block tree: nine zone pointers in the inode, one indirect and one
    double-indirect block, all kept as 16-bit words in ordinary disk blocks. */
module BlockState {

  type Byte = b: nat | b < 256

  const BLOCK_SIZE: nat := 1024
  const NINDIRECT: nat := 512
  const MAX_BLOCKS: nat := 7 + 512 + 512 * 512
  const MAP_BITS: nat := 8192

  type Block = b: seq<Byte> | |b| == 1024 witness seq(1024, _ => 0)

  function ZeroBlock(): Block { seq(1024, _ => 0) }

  type Zones = z: seq<nat> | |z| == 9 witness seq(9, _ => 0)

  datatype Inode = Inode(zones: Zones, size: nat)

  /** `blocks` is the device as seen through the buffer cache, `bits` the zone bitmap laid
      end to end; bit i stands for zone i + first - 1. */
  datatype Fs = Fs(blocks: seq<Block>, bits: seq<bool>, inodes: seq<Inode>, first: nat)

  /** Where a block pointer of an inode can live. */
  datatype Slot = Zone(k: nat) | Ind(i: nat) | Dind(i: nat) | Leaf(i: nat, j: nat)

  predicate ValidSlot(t: Slot) {
    match t
    case Zone(k) => k < 9
    case Ind(i) => i < NINDIRECT
    case Dind(i) => i < NINDIRECT
    case Leaf(i, j) => i < NINDIRECT && j < NINDIRECT
  }

  /** The slot that points to the block holding t; zones live in the inode itself. */
  function Parent(t: Slot): Slot
    requires !t.Zone?
  {
    match t
    case Ind(_) => Zone(7)
    case Dind(_) => Zone(8)
    case Leaf(i, _) => Dind(i)
  }

  function Index(t: Slot): nat {
    match t
    case Zone(k) => k
    case Ind(i) => i
    case Dind(i) => i
    case Leaf(_, j) => j
  }

  function Depth(t: Slot): nat {
    match t
    case Zone(_) => 0
    case Leaf(_, _) => 2
    case _ => 1
  }

  function Word(b: Block, i: nat): nat
    requires i < NINDIRECT
  {
    var lo: nat, hi: nat := b[2 * i], b[2 * i + 1];
    lo + 256 * hi
  }

  function SetWord(b: Block, i: nat, v: nat): Block
    requires i < NINDIRECT
  {
    b[2 * i := v % 256][2 * i + 1 := v / 256 % 256]
  }

  lemma WordAfterSet(b: Block, i: nat, v: nat, j: nat)
    requires i < NINDIRECT && j < NINDIRECT && v < 65536
    ensures Word(SetWord(b, i, v), j) == if j == i then v else Word(b, j)
  {
  }

  function Ptr(s: Fs, n: nat, t: Slot): nat
    decreases Depth(t)
  {
    if n >= |s.inodes| || !ValidSlot(t) then 0
    else if t.Zone? then s.inodes[n].zones[t.k]
    else
      var b := Ptr(s, n, Parent(t));
      if b == 0 || b >= |s.blocks| then 0 else Word(s.blocks[b], Index(t))
  }

  /** Store a pointer; meaningful when the block that holds it exists. */
  function SetPtr(s: Fs, n: nat, t: Slot, v: nat): Fs
    requires n < |s.inodes| && ValidSlot(t)
  {
    if t.Zone? then s.(inodes := s.inodes[n := s.inodes[n].(zones := s.inodes[n].zones[t.k := v])])
    else
      var b := Ptr(s, n, Parent(t));
      if b == 0 || b >= |s.blocks| then s else s.(blocks := s.blocks[b := SetWord(s.blocks[b], Index(t), v)])
  }

  predicate InData(s: Fs, z: nat) {
    s.first <= z < |s.blocks|
  }

  function BitOf(s: Fs, z: nat): nat
    requires s.first <= z
  {
    z - s.first + 1
  }

  predicate Marked(s: Fs, z: nat) {
    InData(s, z) && BitOf(s, z) < |s.bits| && s.bits[BitOf(s, z)]
  }

  /** The map covers the device, and its bit 0, which stands for no zone, is preset. */
  ghost predicate Shape(s: Fs) {
    && 0 < s.first <= |s.blocks| <= 65536
    && |s.blocks| - s.first + 1 <= |s.bits| && s.bits[0]
  }

  predicate Points(s: Fs, n: nat, t: Slot, z: nat) {
    z != 0 && Ptr(s, n, t) == z
  }

  /** Every pointer names a marked data zone, and no zone is named twice. */
  ghost predicate WF(s: Fs) {
    && Shape(s)
    && (forall n: nat, t: Slot, z: nat | Points(s, n, t, z) :: Marked(s, z))
    && (forall n: nat, t: Slot, n': nat, t': Slot, z: nat | Points(s, n, t, z) && Points(s, n', t', z) ::
          n == n' && t == t')
  }

  /** The slot of file block b, by the case split of _bmap. */
  function DataSlot(b: nat): (t: Slot)
    ensures b < MAX_BLOCKS ==> ValidSlot(t)
    ensures t.Zone? ==> t.k < 7
    ensures !t.Dind?
  {
    if b < 7 then Zone(b)
    else if b - 7 < NINDIRECT then Ind(b - 7)
    else Leaf((b - 519) / NINDIRECT, (b - 519) % NINDIRECT)
  }

  lemma DataSlotInjective(b: nat, b': nat)
    ensures DataSlot(b) == DataSlot(b') ==> b == b'
  {
    if b >= 519 { assert b - 519 == NINDIRECT * ((b - 519) / NINDIRECT) + (b - 519) % NINDIRECT; }
    if b' >= 519 { assert b' - 519 == NINDIRECT * ((b' - 519) / NINDIRECT) + (b' - 519) % NINDIRECT; }
  }

  /** Word i of a pointer block, low byte first; 0 if there is no block. */
  function PointerAt(s: Fs, b: nat, i: nat): nat {
    if 0 < b < |s.blocks| && i < 512 then Pair(s.blocks[b][2 * i], s.blocks[b][2 * i + 1]) else 0
  }

  function Pair(lo: nat, hi: nat): nat {
    lo + 256 * hi
  }

  /** What the tree says, level by level: seven direct zones, 512 blocks named by the block of the
      eighth, and 512 times 512 named by the blocks that the block of the ninth names. */
  lemma TreePath(s: Fs, n: nat, b: nat)
    requires n < |s.inodes| && b < MAX_BLOCKS
    ensures b < 7 ==> Ptr(s, n, DataSlot(b)) == s.inodes[n].zones[b]
    ensures 7 <= b < 519 ==> Ptr(s, n, DataSlot(b)) == PointerAt(s, s.inodes[n].zones[7], b - 7)
    ensures 519 <= b ==>
      Ptr(s, n, DataSlot(b)) == PointerAt(s, PointerAt(s, s.inodes[n].zones[8], (b - 519) / 512), (b - 519) % 512)
  {
    if b >= 519 {
      var i := (b - 519) / 512;
      assert Ptr(s, n, Zone(8)) == s.inodes[n].zones[8];
      assert Ptr(s, n, Dind(i)) == PointerAt(s, s.inodes[n].zones[8], i);
    } else if b >= 7 {
      assert Ptr(s, n, Zone(7)) == s.inodes[n].zones[7];
    }
  }

  /** Byte p of file n: what is in its block, or zero where there is no block. */
  function FileByte(s: Fs, n: nat, p: nat): Byte {
    var z := Ptr(s, n, DataSlot(p / BLOCK_SIZE));
    if z == 0 || z >= |s.blocks| then 0 else s.blocks[z][p % BLOCK_SIZE]
  }

  /** Nothing below t is allocated. */
  ghost predicate NoChildren(s: Fs, n: nat, t: Slot) {
    forall c: Slot | !c.Zone? && Parent(c) == t :: Ptr(s, n, c) == 0
  }

  /** The two states agree outside the one pointer (n, t), whose new value is v. */
  ghost predicate OnePtr(s: Fs, s': Fs, n: nat, t: Slot, v: nat) {
    forall n': nat, t': Slot :: Ptr(s', n', t') == if n' == n && t' == t then v else Ptr(s, n', t')
  }

  /** One stored pointer changes that pointer only: its block belongs to this slot's parent
      alone, and what hangs below it is empty before and after. */
  lemma {:induction false} PtrAfterStore(s: Fs, s': Fs, n: nat, t: Slot, v: nat, n': nat, t': Slot)
    requires WF(s) && n < |s.inodes| && ValidSlot(t) && v < 65536
    requires t.Zone? || Ptr(s, n, Parent(t)) != 0
    requires NoChildren(s, n, t) && (v == 0 || (InData(s, v) && !Marked(s, v)))
    requires |s'.blocks| == |s.blocks|
    requires s'.inodes == SetPtr(s, n, t, v).inodes
    requires forall z | 0 <= z < |s.blocks| && z != v :: s'.blocks[z] == SetPtr(s, n, t, v).blocks[z]
    requires v == 0 || s'.blocks[v] == ZeroBlock()
    ensures Ptr(s', n', t') == if n' == n && t' == t then v else Ptr(s, n', t')
    decreases Depth(t')
  {
    if n' < |s.inodes| && ValidSlot(t') && !t'.Zone? {
      var p := Parent(t');
      PtrAfterStore(s, s', n, t, v, n', p);
      var b := Ptr(s, n', p);
      if n' == n && p == t {
        if v != 0 { assert Word(ZeroBlock(), Index(t')) == 0; }
      } else if b != 0 {
        assert Points(s, n', p, b);
        if !t.Zone? && b == Ptr(s, n, Parent(t)) {
          assert Points(s, n, Parent(t), b);
          WordAfterSet(s.blocks[b], Index(t), v, Index(t'));
        }
      }
    }
  }
}
