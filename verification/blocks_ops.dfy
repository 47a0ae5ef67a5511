/** Allocating, filling and freeing one block of one file, on whole file systems. */
module BlockOps {
  import opened BlockState

  /** new_block's effect: bit set, block zeroed. */
  function Claim(s: Fs, z: nat): Fs
    requires Shape(s) && InData(s, z)
  {
    s.(bits := s.bits[BitOf(s, z) := true], blocks := s.blocks[z := ZeroBlock()])
  }

  /** free_block's effect. */
  function Discard(s: Fs, z: nat): Fs
    requires Shape(s) && InData(s, z)
  {
    s.(bits := s.bits[BitOf(s, z) := false])
  }

  /** A claimed block put into an empty slot. */
  function Attach(s: Fs, n: nat, t: Slot, z: nat): Fs
    requires Shape(s) && InData(s, z) && n < |s.inodes| && ValidSlot(t)
  {
    SetPtr(Claim(s, z), n, t, z)
  }

  /** The slot emptied and its block given back. */
  function Detach(s: Fs, n: nat, t: Slot): Fs
    requires Shape(s) && n < |s.inodes| && ValidSlot(t) && InData(s, Ptr(s, n, t))
  {
    SetPtr(Discard(s, Ptr(s, n, t)), n, t, 0)
  }

  lemma {:induction false} PtrIgnoresBits(s: Fs, s': Fs, n: nat, t: Slot)
    requires s' == s.(bits := s'.bits)
    ensures Ptr(s', n, t) == Ptr(s, n, t)
    decreases Depth(t)
  {
    if n < |s.inodes| && ValidSlot(t) && !t.Zone? { PtrIgnoresBits(s, s', n, Parent(t)); }
  }

  /** Zeroing a block nobody points to is not noticed. */
  lemma {:induction false} ClaimKeepsPtr(s: Fs, z: nat, n: nat, t: Slot)
    requires WF(s) && InData(s, z) && !Marked(s, z)
    ensures Ptr(Claim(s, z), n, t) == Ptr(s, n, t)
    decreases Depth(t)
  {
    if n < |s.inodes| && ValidSlot(t) && !t.Zone? {
      ClaimKeepsPtr(s, z, n, Parent(t));
      var b := Ptr(s, n, Parent(t));
      if b != 0 { assert Points(s, n, Parent(t), b); }
    }
  }

  /** An empty slot takes a fresh block: only that pointer changes. */
  lemma AttachPtr(s: Fs, n: nat, t: Slot, z: nat)
    requires WF(s) && n < |s.inodes| && ValidSlot(t) && InData(s, z) && !Marked(s, z)
    requires Ptr(s, n, t) == 0 && (t.Zone? || Ptr(s, n, Parent(t)) != 0)
    ensures OnePtr(s, Attach(s, n, t, z), n, t, z)
  {
    var s' := Attach(s, n, t, z);
    forall c: Slot | !c.Zone? && Parent(c) == t ensures Ptr(s, n, c) == 0 {}
    if !t.Zone? {
      ClaimKeepsPtr(s, z, n, Parent(t));
      assert Points(s, n, Parent(t), Ptr(s, n, Parent(t)));
    }
    forall n': nat, t': Slot ensures Ptr(s', n', t') == if n' == n && t' == t then z else Ptr(s, n', t') {
      PtrAfterStore(s, s', n, t, z, n', t');
    }
  }

  lemma AttachWF(s: Fs, n: nat, t: Slot, z: nat)
    requires WF(s) && n < |s.inodes| && ValidSlot(t) && InData(s, z) && !Marked(s, z)
    requires Ptr(s, n, t) == 0 && (t.Zone? || Ptr(s, n, Parent(t)) != 0)
    ensures WF(Attach(s, n, t, z))
    ensures forall z' :: Marked(Attach(s, n, t, z), z') == (z' == z || Marked(s, z'))
  {
    AttachPtr(s, n, t, z);
    var s' := Attach(s, n, t, z);
    forall z': nat ensures Marked(s', z') == (z' == z || Marked(s, z')) {}
    forall n': nat, t': Slot, z': nat | Points(s', n', t', z') ensures Marked(s', z') {
      if !(n' == n && t' == t) { assert Points(s, n', t', z'); }
    }
    forall n1: nat, t1: Slot, n2: nat, t2: Slot, z': nat | Points(s', n1, t1, z') && Points(s', n2, t2, z')
      ensures n1 == n2 && t1 == t2
    {
      if !(n1 == n && t1 == t) { assert Points(s, n1, t1, z'); }
      if !(n2 == n && t2 == t) { assert Points(s, n2, t2, z'); }
    }
  }

  /** Data blocks keep their contents, and a new data block reads as zeros: no byte of any
      file changes when a block is attached. */
  lemma AttachBytes(s: Fs, n: nat, t: Slot, z: nat, n': nat, p: nat)
    requires WF(s) && n < |s.inodes| && ValidSlot(t) && InData(s, z) && !Marked(s, z)
    requires Ptr(s, n, t) == 0 && (t.Zone? || Ptr(s, n, Parent(t)) != 0)
    ensures FileByte(Attach(s, n, t, z), n', p) == FileByte(s, n', p)
  {
    AttachPtr(s, n, t, z);
    var d := DataSlot(p / BLOCK_SIZE);
    var b := Ptr(s, n', d);
    if b != 0 { assert Points(s, n', d, b); }
    if !t.Zone? {
      ClaimKeepsPtr(s, z, n, Parent(t));
      var up := Ptr(s, n, Parent(t));
      assert Points(s, n, Parent(t), up);
      assert up != z && b != up;
    }
  }

  /** A slot with nothing below it is emptied: only that pointer changes, only its block is freed. */
  lemma DetachPtr(s: Fs, n: nat, t: Slot)
    requires WF(s) && n < |s.inodes| && ValidSlot(t) && Ptr(s, n, t) != 0 && NoChildren(s, n, t)
    ensures InData(s, Ptr(s, n, t)) && OnePtr(s, Detach(s, n, t), n, t, 0)
  {
    var z := Ptr(s, n, t);
    assert Points(s, n, t, z);
    var s1 := Discard(s, z);
    var s' := Detach(s, n, t);
    if !t.Zone? { PtrIgnoresBits(s, s1, n, Parent(t)); }
    forall n': nat, t': Slot ensures Ptr(s', n', t') == if n' == n && t' == t then 0 else Ptr(s, n', t') {
      PtrAfterStore(s, s', n, t, 0, n', t');
    }
  }

  lemma DetachWF(s: Fs, n: nat, t: Slot)
    requires WF(s) && n < |s.inodes| && ValidSlot(t) && Ptr(s, n, t) != 0 && NoChildren(s, n, t)
    ensures InData(s, Ptr(s, n, t)) && WF(Detach(s, n, t))
    ensures forall z' :: Marked(Detach(s, n, t), z') == (z' != Ptr(s, n, t) && Marked(s, z'))
  {
    DetachPtr(s, n, t);
    var s' := Detach(s, n, t);
    var z := Ptr(s, n, t);
    assert Points(s, n, t, z);
    forall z': nat ensures Marked(s', z') == (z' != z && Marked(s, z')) {}
    forall n': nat, t': Slot, z': nat | Points(s', n', t', z') ensures Marked(s', z') {
      assert Points(s, n', t', z');
    }
    forall n1: nat, t1: Slot, n2: nat, t2: Slot, z': nat | Points(s', n1, t1, z') && Points(s', n2, t2, z')
      ensures n1 == n2 && t1 == t2
    {
      assert Points(s, n1, t1, z') && Points(s, n2, t2, z');
    }
  }

  /** Emptying a slot of file n leaves every byte of every other file alone. */
  lemma DetachBytes(s: Fs, n: nat, t: Slot, n': nat, p: nat)
    requires WF(s) && n < |s.inodes| && ValidSlot(t) && Ptr(s, n, t) != 0 && NoChildren(s, n, t) && n' != n
    ensures InData(s, Ptr(s, n, t)) && FileByte(Detach(s, n, t), n', p) == FileByte(s, n', p)
  {
    DetachPtr(s, n, t);
    var d := DataSlot(p / BLOCK_SIZE);
    var b := Ptr(s, n', d);
    if b != 0 && !t.Zone? && Ptr(s, n, Parent(t)) != 0 {
      PtrIgnoresBits(s, Discard(s, Ptr(s, n, t)), n, Parent(t));
      assert Points(s, n', d, b) && Points(s, n, Parent(t), Ptr(s, n, Parent(t)));
    }
  }

  /** New contents for the data block of file n at index k. */
  function Fill(s: Fs, n: nat, k: nat, b: Block): Fs
    requires Ptr(s, n, DataSlot(k)) < |s.blocks|
  {
    s.(blocks := s.blocks[Ptr(s, n, DataSlot(k)) := b])
  }

  lemma {:induction false} FillPtr(s: Fs, n: nat, k: nat, b: Block, n': nat, t': Slot)
    requires WF(s) && 0 < Ptr(s, n, DataSlot(k)) < |s.blocks|
    ensures Ptr(Fill(s, n, k, b), n', t') == Ptr(s, n', t')
    decreases Depth(t')
  {
    if n' < |s.inodes| && ValidSlot(t') && !t'.Zone? {
      FillPtr(s, n, k, b, n', Parent(t'));
      var z := Ptr(s, n', Parent(t'));
      if z == Ptr(s, n, DataSlot(k)) {
        assert Points(s, n, DataSlot(k), z) && Points(s, n', Parent(t'), z);
      }
    }
  }

  /** Data written through one file is seen at that block of that file and nowhere else. */
  lemma FillBytes(s: Fs, n: nat, k: nat, b: Block)
    requires WF(s) && 0 < Ptr(s, n, DataSlot(k)) < |s.blocks|
    ensures WF(Fill(s, n, k, b))
    ensures forall n': nat, t': Slot :: Ptr(Fill(s, n, k, b), n', t') == Ptr(s, n', t')
    ensures forall n': nat, p: nat ::
      FileByte(Fill(s, n, k, b), n', p) == if n' == n && p / BLOCK_SIZE == k then b[p % BLOCK_SIZE] else
        FileByte(s, n', p)
  {
    var s' := Fill(s, n, k, b);
    forall n': nat, t': Slot ensures Ptr(s', n', t') == Ptr(s, n', t') { FillPtr(s, n, k, b, n', t'); }
    forall n': nat, t': Slot, z: nat | Points(s', n', t', z) ensures Marked(s', z) { assert Points(s, n', t', z); }
    forall n1: nat, t1: Slot, n2: nat, t2: Slot, z: nat | Points(s', n1, t1, z) && Points(s', n2, t2, z)
      ensures n1 == n2 && t1 == t2
    {
      assert Points(s, n1, t1, z) && Points(s, n2, t2, z);
    }
    forall n': nat, p: nat ensures FileByte(s', n', p) ==
      if n' == n && p / BLOCK_SIZE == k then b[p % BLOCK_SIZE] else FileByte(s, n', p)
    {
      var z := Ptr(s, n, DataSlot(k));
      var d := DataSlot(p / BLOCK_SIZE);
      if Ptr(s, n', d) == z {
        assert Points(s, n', d, z) && Points(s, n, DataSlot(k), z);
        DataSlotInjective(k, p / BLOCK_SIZE);
      }
    }
  }

  /** Bits that stand for no data zone do not matter. */
  lemma SpareBits(s: Fs, s': Fs)
    requires WF(s) && s' == s.(bits := s'.bits) && |s'.bits| == |s.bits|
    requires s'.bits[0] && forall z | InData(s, z) :: Marked(s', z) == Marked(s, z)
    ensures WF(s')
    ensures forall n: nat, t: Slot :: Ptr(s', n, t) == Ptr(s, n, t)
    ensures forall n: nat, p: nat :: FileByte(s', n, p) == FileByte(s, n, p)
  {
    forall n: nat, t: Slot ensures Ptr(s', n, t) == Ptr(s, n, t) { PtrIgnoresBits(s, s', n, t); }
    forall n: nat, t: Slot, z: nat | Points(s', n, t, z) ensures Marked(s', z) { assert Points(s, n, t, z); }
    forall n1: nat, t1: Slot, n2: nat, t2: Slot, z: nat | Points(s', n1, t1, z) && Points(s', n2, t2, z)
      ensures n1 == n2 && t1 == t2
    {
      assert Points(s, n1, t1, z) && Points(s, n2, t2, z);
    }
  }

  lemma {:induction false} PtrIgnoresSize(s: Fs, n: nat, size: nat, n': nat, t: Slot)
    requires n < |s.inodes|
    ensures Ptr(s.(inodes := s.inodes[n := s.inodes[n].(size := size)]), n', t) == Ptr(s, n', t)
    decreases Depth(t)
  {
    if n' < |s.inodes| && ValidSlot(t) && !t.Zone? { PtrIgnoresSize(s, n, size, n', Parent(t)); }
  }

  lemma SizeOnly(s: Fs, n: nat, size: nat)
    requires WF(s) && n < |s.inodes|
    ensures var s' := s.(inodes := s.inodes[n := s.inodes[n].(size := size)]);
      && WF(s')
      && (forall n': nat, t: Slot :: Ptr(s', n', t) == Ptr(s, n', t))
      && (forall n': nat, p: nat :: FileByte(s', n', p) == FileByte(s, n', p))
  {
    var s' := s.(inodes := s.inodes[n := s.inodes[n].(size := size)]);
    forall n': nat, t: Slot ensures Ptr(s', n', t) == Ptr(s, n', t) { PtrIgnoresSize(s, n, size, n', t); }
    forall n': nat, t: Slot, z: nat | Points(s', n', t, z) ensures Marked(s', z) { assert Points(s, n', t, z); }
    forall n1: nat, t1: Slot, n2: nat, t2: Slot, z: nat | Points(s', n1, t1, z) && Points(s', n2, t2, z)
      ensures n1 == n2 && t1 == t2
    {
      assert Points(s, n1, t1, z) && Points(s, n2, t2, z);
    }
  }

  /** No free zone is left. */
  ghost predicate Full(s: Fs) {
    forall z: nat | InData(s, z) :: Marked(s, z)
  }

  ghost predicate Reached(s: Fs, n: nat, z: nat) {
    exists t: Slot :: Points(s, n, t, z)
  }

  /** Every zone taken meanwhile is one that file n now reaches: none is lost. */
  ghost predicate NoLeak(s: Fs, s': Fs, n: nat) {
    && (forall t: Slot :: Ptr(s, n, t) != 0 ==> Ptr(s', n, t) == Ptr(s, n, t))
    && (forall z: nat | Marked(s', z) :: Marked(s, z) || Reached(s', n, z))
  }

  lemma NoLeakTrans(s0: Fs, s1: Fs, s2: Fs, n: nat)
    requires NoLeak(s0, s1, n) && NoLeak(s1, s2, n)
    ensures NoLeak(s0, s2, n)
  {
    forall z: nat | Marked(s2, z) && !Marked(s0, z) ensures Reached(s2, n, z) {
      if Marked(s1, z) {
        var t :| Points(s1, n, t, z);
        assert Points(s2, n, t, z);
      }
    }
  }

  /** s' is s with at most some empty slots of file n filled: every byte of every file and
      every block number but that of file block k of file n is the same. */
  ghost predicate Grown(s: Fs, s': Fs, n: nat, k: nat) {
    && WF(s') && |s'.inodes| == |s.inodes| && |s'.blocks| == |s.blocks| && s'.first == s.first && |s'.bits| == |s.bits|
    && (forall i | 0 <= i < |s.inodes| :: s'.inodes[i].size == s.inodes[i].size)
    && (forall n': nat, t: Slot :: Ptr(s, n', t) != 0 ==> Ptr(s', n', t) == Ptr(s, n', t))
    && (forall n': nat, k': nat :: (n' != n || k' != k) ==> Ptr(s', n', DataSlot(k')) == Ptr(s, n', DataSlot(k')))
    && (forall n': nat, p: nat :: FileByte(s', n', p) == FileByte(s, n', p))
    && NoLeak(s, s', n)
  }

  lemma GrownTrans(s0: Fs, s1: Fs, s2: Fs, n: nat, k: nat)
    requires Grown(s0, s1, n, k) && Grown(s1, s2, n, k)
    ensures Grown(s0, s2, n, k)
  {
    NoLeakTrans(s0, s1, s2, n);
  }

  /** The slots that lookup of file block k passes through. */
  predicate OnPath(t: Slot, k: nat) {
    t == DataSlot(k) || (!DataSlot(k).Zone? && (t == Parent(DataSlot(k)) || (DataSlot(k).Leaf? && t == Zone(8))))
  }

  lemma AttachGrown(s: Fs, n: nat, t: Slot, z: nat, k: nat)
    requires WF(s) && n < |s.inodes| && ValidSlot(t) && InData(s, z) && !Marked(s, z) && OnPath(t, k)
    requires Ptr(s, n, t) == 0 && (t.Zone? || Ptr(s, n, Parent(t)) != 0)
    ensures Grown(s, Attach(s, n, t, z), n, k) && Ptr(Attach(s, n, t, z), n, t) == z
  {
    AttachPtr(s, n, t, z);
    AttachWF(s, n, t, z);
    forall n': nat, p: nat ensures FileByte(Attach(s, n, t, z), n', p) == FileByte(s, n', p)
    {
      AttachBytes(s, n, t, z, n', p);
    }
    forall n': nat, k': nat | n' != n || k' != k
      ensures Ptr(Attach(s, n, t, z), n', DataSlot(k')) == Ptr(s, n', DataSlot(k'))
    {
      DataSlotInjective(k, k');
    }
    assert Points(Attach(s, n, t, z), n, t, z);
  }

  /** All new_block may do on failure: set the first clear bit, if it stands for no zone. */
  ghost predicate Spared(s: Fs, s': Fs) {
    s' == s || exists b: nat ::
      b < |s.bits| && FirstClear(s, b) && b + s.first > |s.blocks| && s' == s.(bits := s.bits[b := true])
  }

  predicate FirstClear(s: Fs, b: nat)
    requires b < |s.bits|
  {
    !s.bits[b] && forall j | 0 <= j < b :: s.bits[j]
  }

  ghost predicate SameSizes(s0: Fs, s: Fs) {
    && |s.inodes| == |s0.inodes| && |s.blocks| == |s0.blocks| && |s.bits| == |s0.bits| && s.first == s0.first
    && forall i | 0 <= i < |s.inodes| :: s.inodes[i].size == s0.inodes[i].size
  }

  /** Part of file n has been freed, each block once: the freed zones are exactly those the
      file no longer reaches, and no other file has changed. */
  ghost predicate Truncating(s0: Fs, s: Fs, n: nat) {
    && WF(s) && SameSizes(s0, s)
    && (forall n': nat, t: Slot | n' != n :: Ptr(s, n', t) == Ptr(s0, n', t))
    && (forall t: Slot :: Ptr(s, n, t) == 0 || Ptr(s, n, t) == Ptr(s0, n, t))
    && (forall z: nat :: Marked(s, z) <==> Marked(s0, z) && (Reached(s0, n, z) ==> Reached(s, n, z)))
    && (forall n': nat, p: nat | n' != n :: FileByte(s, n', p) == FileByte(s0, n', p))
  }

  lemma DetachTruncating(s0: Fs, s: Fs, n: nat, t: Slot)
    requires Truncating(s0, s, n) && n < |s.inodes| && ValidSlot(t) && Ptr(s, n, t) != 0 && NoChildren(s, n, t)
    ensures InData(s, Ptr(s, n, t)) && Truncating(s0, Detach(s, n, t), n)
    ensures OnePtr(s, Detach(s, n, t), n, t, 0)
  {
    DetachPtr(s, n, t);
    DetachWF(s, n, t);
    var s', z := Detach(s, n, t), Ptr(s, n, t);
    assert Points(s, n, t, z);
    assert Points(s0, n, t, z);
    forall y: nat ensures Reached(s', n, y) <==> Reached(s, n, y) && y != z {
      if Reached(s', n, y) {
        var u :| Points(s', n, u, y);
        assert Points(s, n, u, y);
      }
      if Reached(s, n, y) && y != z {
        var u :| Points(s, n, u, y);
        assert Points(s', n, u, y);
      }
    }
    forall n': nat, p: nat | n' != n ensures FileByte(s', n', p) == FileByte(s0, n', p) { DetachBytes(s, n, t, n', p); }
  }
}
