/** fs/bitmap.c, fs/inode.c, fs/file_dev.c and fs/truncate.c on a mounted device. */
module FileDevice {
  import opened BlockState
  import opened BlockOps

  class File {
    var pos: nat
    const append: bool
    constructor (append: bool)
      ensures pos == 0 && this.append == append
    {
      pos := 0;
      this.append := append;
    }
  }

  class Device {
    const blocks: array<Block>
    const zmap: array2<bool>        // s_zmap[i]->b_data, bit by bit
    const inodes: array<Inode>
    const first: nat                // s_firstdatazone

    constructor (blocks: array<Block>, zmap: array2<bool>, inodes: array<Inode>, first: nat)
      ensures this.blocks == blocks && this.zmap == zmap && this.inodes == inodes && this.first == first
    {
      this.blocks, this.zmap, this.inodes, this.first := blocks, zmap, inodes, first;
    }

    ghost predicate Valid() {
      zmap.Length1 == MAP_BITS && zmap.Length0 <= 8
    }

    ghost function Abs(): Fs
      reads this, blocks, zmap, inodes
      requires Valid()
    {
      Fs(blocks[..], Flat(zmap), inodes[..], first)
    }

    /** free_block's second half; `cleared` is its "bit already cleared". */
    method FreeBit(block: nat) returns (cleared: bool)
      requires Valid() && Shape(Abs()) && InData(Abs(), block)
      modifies zmap
      ensures cleared == !Marked(old(Abs()), block)
      ensures Abs() == Discard(old(Abs()), block)
      ensures var b := block - (first - 1); 0 < b && b / 8192 < zmap.Length0 && !zmap[b / 8192, b % 8192]
    {
      var b := block - (first - 1);
      MapIndex(b);
      cleared := !zmap[b / MAP_BITS, b % MAP_BITS];
      ghost var was := Flat(zmap);
      zmap[b / MAP_BITS, b % MAP_BITS] := false;
      FlatStore(was, Flat(zmap), b, false);
    }

    /** new_block: 0 when no zone is free. */
    method NewBlock() returns (z: nat)
      requires Valid() && WF(Abs())
      modifies zmap, blocks
      ensures z == 0 ==> Full(old(Abs())) && Full(Abs()) && Spared(old(Abs()), Abs())
      ensures z != 0 ==> InData(old(Abs()), z) && !Marked(old(Abs()), z) && Abs() == Claim(old(Abs()), z)
      ensures z != 0 ==> BitOf(old(Abs()), z) < |old(Abs()).bits| && FirstClear(old(Abs()), BitOf(old(Abs()), z))
      ensures z != 0 ==> z < blocks.Length && forall k: nat | k < 1024 :: blocks[z][k] == 0
      ensures z != 0 ==> var b := z - (first - 1);
        0 < b && b / 8192 < zmap.Length0 && zmap[b / 8192, b % 8192] && !old(zmap[b / 8192, b % 8192])
    {
      ghost var s, was := Abs(), Flat(zmap);
      var i, j := 0, MAP_BITS;
      while i < zmap.Length0
        invariant was == Flat(zmap) && Abs() == s
        invariant 0 <= i <= zmap.Length0 && 0 <= j <= MAP_BITS && (j < MAP_BITS ==> i < zmap.Length0 && !zmap[i, j])
        invariant j == MAP_BITS ==> forall b | 0 <= b < i * MAP_BITS :: was[b]
        invariant j < MAP_BITS ==> forall b | 0 <= b < i * MAP_BITS + j :: was[b]
      {
        j := 0;
        while j < MAP_BITS && zmap[i, j]
          invariant 0 <= j <= MAP_BITS && was == Flat(zmap) && Abs() == s
          invariant forall b | 0 <= b < i * MAP_BITS + j :: was[b]
        {
          FlatAt(zmap, i, j);
          j := j + 1;
        }
        if j < MAP_BITS { break; }
        i := i + 1;
      }
      assert was == Flat(zmap);
      if i >= zmap.Length0 || j >= MAP_BITS {
        assert forall b | 0 <= b < |was| :: was[b];
        return 0;
      }
      var b := i * MAP_BITS + j;
      FlatAt(zmap, i, j);
      zmap[i, j] := true;
      FlatStore(was, Flat(zmap), b, true);
      z := b + first - 1;
      assert FirstClear(s, b);
      if z >= blocks.Length {
        assert Abs() == s.(bits := s.bits[b := true]);
        return 0;
      }
      blocks[z] := ZeroBlock();
      assert Abs().bits == s.bits[b := true];
      assert Abs() == Claim(s, z);
    }

    /** Store a block number: in the inode, or as a word of a pointer block. */
    method StoreWord(block: nat, i: nat, v: nat)
      requires Valid() && block < blocks.Length && i < NINDIRECT
      modifies blocks
      ensures Abs() == old(Abs()).(blocks := old(Abs()).blocks[block := SetWord(old(Abs()).blocks[block], i, v)])
    {
      blocks[block] := SetWord(blocks[block], i, v);
    }

    method StoreZone(n: nat, k: nat, v: nat)
      requires Valid() && n < inodes.Length && k < 9
      modifies inodes
      ensures Abs() == SetPtr(old(Abs()), n, Zone(k), v)
    {
      inodes[n] := inodes[n].(zones := inodes[n].zones[k := v]);
    }

    /** "if (create && !pointer) if (pointer = new_block(dev)) store it", for the slot t that
        the lookup of file block k has reached. */
    method Provide(n: nat, t: Slot, create: bool, ghost k: nat) returns (z: nat)
      requires Valid() && WF(Abs()) && n < inodes.Length && ValidSlot(t) && OnPath(t, k)
      requires t.Zone? || Ptr(Abs(), n, Parent(t)) != 0
      modifies blocks, zmap, inodes
      ensures z == Ptr(Abs(), n, t) && Grown(old(Abs()), Abs(), n, k)
      ensures !create || Ptr(old(Abs()), n, t) != 0 ==> Abs() == old(Abs())
      ensures create && z == 0 ==> Full(Abs())
    {
      ghost var s := Abs();
      ghost var was := Ptr(s, n, t);
      var up := 0;
      if t.Zone? {
        z := inodes[n].zones[t.k];
      } else {
        up := Lookup(n, Parent(t));
        assert Points(s, n, Parent(t), up);
        z := Word(blocks[up], Index(t));
      }
      if create && z == 0 {
        z := NewBlock();
        if z != 0 {
          AttachGrown(s, n, t, z, k);
          if t.Zone? {
            StoreZone(n, t.k, z);
          } else {
            ClaimKeepsPtr(s, z, n, Parent(t));
            StoreWord(up, Index(t), z);
          }
          assert Abs() == Attach(s, n, t, z);
        } else {
          SpareBits(s, Abs());
        }
      }
    }

    /** Follow the pointers to a slot. */
    method Lookup(n: nat, t: Slot) returns (z: nat)
      requires Valid() && WF(Abs()) && n < inodes.Length && ValidSlot(t)
      ensures z == Ptr(Abs(), n, t)
      decreases Depth(t)
    {
      if t.Zone? { return inodes[n].zones[t.k]; }
      var up := Lookup(n, Parent(t));
      if up == 0 { return 0; }
      assert Points(Abs(), n, Parent(t), up);
      return Word(blocks[up], Index(t));
    }

    /** _bmap: bmap with create == false, create_block with create == true. */
    method Bmap(n: nat, block: nat, create: bool) returns (z: nat)
      requires Valid() && WF(Abs()) && n < inodes.Length && block < MAX_BLOCKS
      modifies blocks, zmap, inodes
      ensures z == Ptr(Abs(), n, DataSlot(block)) && Grown(old(Abs()), Abs(), n, block)
      ensures !create || Ptr(old(Abs()), n, DataSlot(block)) != 0 ==> Abs() == old(Abs())
      ensures create && z == 0 ==> Full(Abs())
      ensures block < 7 ==> z == inodes[n].zones[block]
      ensures 7 <= block < 519 ==> var up, i := inodes[n].zones[7], block - 7;
        if up == 0 then z == 0
        else up < blocks.Length && z == (blocks[up][2 * i] as nat) + 256 * (blocks[up][2 * i + 1] as nat)
      ensures 519 <= block ==> var top, i, j := inodes[n].zones[8], (block - 519) / 512, (block - 519) % 512;
        if top == 0 then z == 0
        else top < blocks.Length && i < 512 &&
             var up := (blocks[top][2 * i] as nat) + 256 * (blocks[top][2 * i + 1] as nat);
             if up == 0 then z == 0
             else up < blocks.Length && z == (blocks[up][2 * j] as nat) + 256 * (blocks[up][2 * j + 1] as nat)
    {
      z := MapBlock(n, block, create);
      TreePath(Abs(), n, block);
      PathBlocks(Abs(), n, block);
    }

    method MapBlock(n: nat, block: nat, create: bool) returns (z: nat)
      requires Valid() && WF(Abs()) && n < inodes.Length && block < MAX_BLOCKS
      modifies blocks, zmap, inodes
      ensures z == Ptr(Abs(), n, DataSlot(block)) && Grown(old(Abs()), Abs(), n, block)
      ensures !create || Ptr(old(Abs()), n, DataSlot(block)) != 0 ==> Abs() == old(Abs())
      ensures create && z == 0 ==> Full(Abs())
    {
      ghost var s := Abs();
      if block < 7 {
        z := Provide(n, Zone(block), create, block);
        return;
      }
      var b := block - 7;
      if b < 512 {
        z := Provide(n, Zone(7), create, block);
        if z == 0 { return; }
        ghost var s1 := Abs();
        z := Provide(n, Ind(b), create, block);
        GrownTrans(s, s1, Abs(), n, block);
        return;
      }
      b := b - 512;
      z := Provide(n, Zone(8), create, block);
      if z == 0 { return; }
      ghost var s1 := Abs();
      z := Provide(n, Dind(b / 512), create, block);
      ghost var s2 := Abs();
      GrownTrans(s, s1, s2, n, block);
      if z == 0 { return; }
      z := Provide(n, Leaf(b / 512, b % 512), create, block);
      GrownTrans(s, s2, Abs(), n, block);
    }

    /** One turn of file_read: what the block of byte pos has from there on, at most `left` bytes. */
    method ReadTurn(n: nat, pos: nat, left: nat) returns (data: seq<Byte>)
      requires Valid() && WF(Abs()) && n < inodes.Length && pos / BLOCK_SIZE < MAX_BLOCKS && left > 0
      modifies blocks, zmap, inodes
      ensures Abs() == old(Abs()) && 0 < |data| <= left && data == FileBytes(Abs(), n, pos, |data|)
    {
      var nr := Bmap(n, pos / BLOCK_SIZE, false);
      var at := pos % BLOCK_SIZE;
      var chars := if BLOCK_SIZE - at < left then BLOCK_SIZE - at else left;
      var src: Block := ZeroBlock();
      if nr != 0 {
        assert Points(Abs(), n, DataSlot(pos / BLOCK_SIZE), nr);
        src := blocks[nr];
      }
      ChunkBytes(Abs(), n, pos, chars, src);
      data := src[at..at + chars];
    }

    /** file_read: the bytes delivered, whatever blocks or holes they come from. */
    method FileRead(n: nat, filp: File, count: int) returns (buf: seq<Byte>)
      requires Valid() && WF(Abs()) && n < inodes.Length && filp.pos + count <= MAX_BLOCKS * BLOCK_SIZE
      modifies filp`pos, blocks, zmap, inodes
      ensures Abs() == old(Abs())
      ensures buf == FileBytes(Abs(), n, old(filp.pos), if count <= 0 then 0 else count)
      ensures filp.pos == old(filp.pos) + |buf|
      ensures forall k: nat | k < |buf| :: DirectByte(Abs(), n, old(filp.pos) + k, buf[k])
    {
      buf := [];
      DirectBytes(Abs(), n, filp.pos, if count <= 0 then 0 else count);
      if count <= 0 { return; }
      var left := count;
      while left > 0
        invariant 0 <= left <= count && filp.pos == old(filp.pos) + (count - left) && Abs() == old(Abs())
        invariant buf == FileBytes(Abs(), n, old(filp.pos), count - left)
      {
        var data := ReadTurn(n, filp.pos, left);
        MoreBytes(Abs(), n, old(filp.pos), count - left, |data|);
        filp.pos := filp.pos + |data|;
        left := left - |data|;
        buf := buf + data;
      }
    }

    /** The byte loop of file_write into one buffer. */
    method CopyIn(block: nat, at: nat, data: seq<Byte>)
      requires Valid() && block < blocks.Length && at + |data| <= BLOCK_SIZE
      modifies blocks
      ensures Abs() == old(Abs()).(blocks := old(Abs()).blocks[block := Overlay(old(Abs()).blocks[block], at, data)])
    {
      var done := 0;
      ghost var s := Abs();
      assert Overlay(s.blocks[block], at, data[..0]) == s.blocks[block];
      assert s.blocks[block := s.blocks[block]] == s.blocks;
      while done < |data|
        invariant 0 <= done <= |data|
        invariant Abs() == s.(blocks := s.blocks[block := Overlay(s.blocks[block], at, data[..done])])
      {
        ghost var b0 := blocks[block];
        blocks[block] := blocks[block][at + done := data[done]];
        assert data[..done + 1] == data[..done] + [data[done]];
        assert Overlay(s.blocks[block], at, data[..done + 1]) == b0[at + done := data[done]];
        done := done + 1;
      }
      assert data[..done] == data;
    }

    /** One turn of file_write once its block is there: the size grows, the bytes go in. */
    method PutChunk(n: nat, pos: nat, block: nat, data: seq<Byte>)
      requires Valid() && WF(Abs()) && n < inodes.Length && 0 < |data| && pos % BLOCK_SIZE + |data| <= BLOCK_SIZE
      requires block != 0 && block == Ptr(Abs(), n, DataSlot(pos / BLOCK_SIZE))
      modifies blocks, inodes
      ensures WF(Abs()) && Written(old(Abs()), Abs(), n, pos, data)
      ensures Abs().inodes[n].size == Larger(old(Abs()).inodes[n].size, pos + |data|)
      ensures NoLeak(old(Abs()), Abs(), n)
    {
      ghost var s := Abs();
      assert Points(s, n, DataSlot(pos / BLOCK_SIZE), block);
      if pos + |data| > inodes[n].size {
        inodes[n] := inodes[n].(size := pos + |data|);
      }
      ghost var s1 := Abs();
      SizeOnly(s, n, s1.inodes[n].size);
      assert s1 == s.(inodes := s.inodes[n := s.inodes[n].(size := s1.inodes[n].size)]);
      CopyIn(block, pos % BLOCK_SIZE, data);
      OverlayWritten(s1, Abs(), n, pos, data);
      FillBytes(s1, n, pos / BLOCK_SIZE, Overlay(s1.blocks[block], pos % BLOCK_SIZE, data));
    }

    /** One turn of file_write, which has written i bytes from `start` on: c bytes more, or 0 when
        create_block finds no space. */
    method WriteTurn(ghost s0: Fs, ghost start: nat, n: nat, pos: nat, buf: seq<Byte>, i: nat) returns (c: nat)
      requires Valid() && WF(Abs()) && n < inodes.Length && i < |buf| && pos == start + i
      requires pos / BLOCK_SIZE < MAX_BLOCKS && n < |s0.inodes|
      requires Written(s0, Abs(), n, start, buf[..i]) && NoLeak(s0, Abs(), n)
      modifies blocks, zmap, inodes
      ensures WF(Abs()) && i + c <= |buf| && (c == 0 ==> Full(Abs()))
      ensures Written(s0, Abs(), n, start, buf[..i + c]) && NoLeak(s0, Abs(), n)
      ensures Abs().inodes[n].size ==
        if c > 0 then Larger(old(Abs()).inodes[n].size, pos + c) else old(Abs()).inodes[n].size
    {
      ghost var s1 := Abs();
      var block := Bmap(n, pos / BLOCK_SIZE, true);
      ghost var s2 := Abs();
      GrownWritten(s0, s1, s2, n, pos / BLOCK_SIZE, start, buf[..i]);
      NoLeakTrans(s0, s1, s2, n);
      if block == 0 { return 0; }
      c := BLOCK_SIZE - pos % BLOCK_SIZE;
      if c > |buf| - i { c := |buf| - i; }
      PutChunk(n, pos, block, buf[i..i + c]);
      WrittenMore(s0, s2, Abs(), n, start, buf, i, c);
      NoLeakTrans(s0, s2, Abs(), n);
    }

    /** file_write. The result is its return value, -1 when nothing was written. */
    method FileWrite(n: nat, filp: File, buf: seq<Byte>) returns (r: int)
      requires Valid() && WF(Abs()) && n < inodes.Length
      requires (if filp.append then inodes[n].size else filp.pos) + |buf| <= MAX_BLOCKS * BLOCK_SIZE
      modifies filp`pos, blocks, zmap, inodes
      ensures WF(Abs()) && (r == -1 || 0 < r <= |buf|)
      ensures var start := old(if filp.append then inodes[n].size else filp.pos);
        var i := if r == -1 then 0 else r;
        && Written(old(Abs()), Abs(), n, start, buf[..i])
        && inodes[n].size == (if i > 0 && start + i > old(inodes[n].size) then start + i else old(inodes[n].size))
        && filp.pos == (if filp.append then old(filp.pos) else start + i)
        && (i < |buf| ==> Full(Abs()))
      ensures NoLeak(old(Abs()), Abs(), n)
    {
      var pos := if filp.append then inodes[n].size else filp.pos;
      ghost var start, s0 := pos, Abs();
      var i := 0;
      while i < |buf|
        invariant 0 <= i <= |buf| && pos == start + i && WF(Abs()) && filp.pos == old(filp.pos)
        invariant Written(s0, Abs(), n, start, buf[..i]) && NoLeak(s0, Abs(), n)
        invariant Abs().inodes[n].size == if i > 0 then Larger(s0.inodes[n].size, start + i) else s0.inodes[n].size
      {
        var c := WriteTurn(s0, start, n, pos, buf, i);
        if c == 0 { break; }
        pos := pos + c;
        i := i + c;
      }
      if !filp.append { filp.pos := pos; }
      return if i != 0 then i else -1;
    }

    /** free_block: refused while somebody else holds the buffer of the block. The "bit
        already cleared" complaint cannot be heard. */
    method FreeBlock(z: nat, busy: set<nat>) returns (ok: bool)
      requires Valid() && Shape(Abs()) && Marked(Abs(), z)
      modifies zmap
      ensures ok == (z !in busy)
      ensures Abs() == if ok then Discard(old(Abs()), z) else old(Abs())
      ensures ok ==> var b := z - (first - 1); 0 < b && b / 8192 < zmap.Length0 && !zmap[b / 8192, b % 8192]
    {
      if z in busy { return false; }
      var cleared := FreeBit(z);
      assert !cleared;
      return true;
    }

    /** "if (free_block(p)) p = 0" for a slot with nothing below it. */
    method FreeSlot(ghost s0: Fs, n: nat, t: Slot, z: nat, busy: set<nat>) returns (ok: bool)
      requires Valid() && Truncating(s0, Abs(), n) && n < inodes.Length && ValidSlot(t) && NoChildren(Abs(), n, t)
      requires z != 0 && z == Ptr(Abs(), n, t)
      modifies zmap, blocks, inodes
      ensures Truncating(s0, Abs(), n) && ok == (z !in busy)
      ensures if ok then OnePtr(old(Abs()), Abs(), n, t, 0) else Abs() == old(Abs())
    {
      ghost var s := Abs();
      assert Points(s, n, t, z);
      ok := FreeBlock(z, busy);
      if ok { ClearSlot(s0, s, n, t); }
    }

    /** Zero the pointer of a slot whose block has just been freed. */
    method ClearSlot(ghost s0: Fs, ghost s: Fs, n: nat, t: Slot)
      requires Valid() && Truncating(s0, s, n) && n < inodes.Length && |s.inodes| == inodes.Length
      requires ValidSlot(t) && NoChildren(s, n, t) && Ptr(s, n, t) != 0 && InData(s, Ptr(s, n, t))
      requires Abs() == Discard(s, Ptr(s, n, t))
      modifies blocks, inodes
      ensures Truncating(s0, Abs(), n) && OnePtr(s, Abs(), n, t, 0)
    {
      DetachTruncating(s0, s, n, t);
      if t.Zone? {
        StoreZone(n, t.k, 0);
      } else {
        PtrIgnoresBits(s, Abs(), n, Parent(t));
        var up := Follow(s, n, Parent(t));
        StoreWord(up, Index(t), 0);
      }
    }

    /** Follow the pointers; the bitmap plays no part. */
    method Follow(ghost s: Fs, n: nat, t: Slot) returns (z: nat)
      requires Valid() && WF(s) && n < inodes.Length && ValidSlot(t) && Abs() == s.(bits := Abs().bits)
      ensures z == Ptr(s, n, t)
      decreases Depth(t)
    {
      if t.Zone? { return inodes[n].zones[t.k]; }
      var up := Follow(s, n, Parent(t));
      if up == 0 { return 0; }
      assert Points(s, n, Parent(t), up);
      return Word(blocks[up], Index(t));
    }

    /** free_ind on one word of the pointer block in slot `up`. */
    method FreeWord(ghost s0: Fs, n: nat, up: Slot, block: nat, i: nat, busy: set<nat>) returns (ok: bool)
      requires Valid() && Truncating(s0, Abs(), n) && n < inodes.Length && ValidSlot(up) && (up == Zone(7) || up.Dind?)
      requires block != 0 && block == Ptr(Abs(), n, up) && i < NINDIRECT
      modifies zmap, blocks, inodes
      ensures Truncating(s0, Abs(), n)
      ensures forall t: Slot | t != Below(up, i) :: Ptr(Abs(), n, t) == Ptr(old(Abs()), n, t)
      ensures ok ==> Ptr(Abs(), n, Below(up, i)) == 0
      ensures !ok ==> Blocked(s0, n, busy)
    {
      ghost var s := Abs();
      assert Points(s, n, up, block);
      var p := Word(blocks[block], i);
      if p == 0 { return true; }
      assert Points(s0, n, Below(up, i), p);
      ok := FreeSlot(s0, n, Below(up, i), p, busy);
    }

    /** free_ind on the pointer block in slot `up`: every block below it that is not busy is
        freed, then the block itself. s1 is the state just before that last step. */
    method FreeInd(ghost s0: Fs, n: nat, up: Slot, block: nat, busy: set<nat>) returns (ok: bool, ghost s1: Fs)
      requires Valid() && Truncating(s0, Abs(), n) && n < inodes.Length && ValidSlot(up) && (up == Zone(7) || up.Dind?)
      requires block == Ptr(Abs(), n, up)
      modifies zmap, blocks, inodes
      ensures Truncating(s0, s1, n) && OnlyBelow(old(Abs()), s1, n, up)
      ensures ok && block != 0 ==> NoChildren(s1, n, up) && InData(s1, block) && Abs() == Discard(s1, block)
      ensures !ok || block == 0 ==> Abs() == s1
      ensures !ok ==> Blocked(s0, n, busy)
    {
      ghost var s := Abs();
      if block == 0 { return true, s; }
      var blockBusy := false;
      var i := 0;
      while i < NINDIRECT
        invariant 0 <= i <= NINDIRECT && Truncating(s0, Abs(), n) && OnlyBelow(s, Abs(), n, up)
        invariant !blockBusy ==> forall j: nat | j < i :: Ptr(Abs(), n, Below(up, j)) == 0
        invariant blockBusy ==> Blocked(s0, n, busy)
      {
        ok := FreeWord(s0, n, up, block, i, busy);
        if !ok { blockBusy := true; }
        i := i + 1;
      }
      s1 := Abs();
      if blockBusy { return false, s1; }
      NothingBelow(s1, n, up);
      assert Points(s1, n, up, block) && Points(s0, n, up, block);
      ok := FreeBlock(block, busy);
    }

    /** free_dind, the same one level up. */
    method FreeDind(ghost s0: Fs, n: nat, block: nat, busy: set<nat>) returns (ok: bool, ghost s1: Fs)
      requires Valid() && Truncating(s0, Abs(), n) && n < inodes.Length && block == Ptr(Abs(), n, Zone(8))
      modifies zmap, blocks, inodes
      ensures Truncating(s0, s1, n) && (forall k: nat :: Ptr(s1, n, Zone(k)) == Ptr(old(Abs()), n, Zone(k)))
      ensures ok && block != 0 ==> NoChildren(s1, n, Zone(8)) && InData(s1, block) && Abs() == Discard(s1, block)
      ensures !ok || block == 0 ==> Abs() == s1
      ensures !ok ==> Blocked(s0, n, busy)
    {
      ghost var s := Abs();
      if block == 0 { return true, s; }
      var blockBusy := false;
      assert Points(s, n, Zone(8), block);
      var i := 0;
      while i < NINDIRECT
        invariant 0 <= i <= NINDIRECT && Truncating(s0, Abs(), n)
        invariant forall k: nat :: Ptr(Abs(), n, Zone(k)) == Ptr(s, n, Zone(k))
        invariant !blockBusy ==> forall j: nat | j < i :: Ptr(Abs(), n, Dind(j)) == 0
        invariant blockBusy ==> Blocked(s0, n, busy)
      {
        var p := Word(blocks[block], i);
        if p != 0 {
          ghost var s2;
          ok, s2 := FreeInd(s0, n, Dind(i), p, busy);
          if ok { ClearSlot(s0, s2, n, Dind(i)); } else { blockBusy := true; }
        }
        i := i + 1;
      }
      s1 := Abs();
      if blockBusy { return false, s1; }
      NothingUnderDind(s1, n);
      assert Points(s1, n, Zone(8), block);
      assert Points(s0, n, Zone(8), block);
      ok := FreeBlock(block, busy);
    }

    /** truncate's loop over the direct zones. */
    method FreeDirect(ghost s0: Fs, n: nat, busy: set<nat>) returns (blockBusy: bool)
      requires Valid() && Truncating(s0, Abs(), n) && n < inodes.Length
      modifies zmap, blocks, inodes
      ensures Truncating(s0, Abs(), n)
      ensures !blockBusy ==> forall j: nat | j < 7 :: Ptr(Abs(), n, Zone(j)) == 0
      ensures blockBusy ==> Blocked(s0, n, busy)
    {
      blockBusy := false;
      var i := 0;
      while i < 7
        invariant 0 <= i <= 7 && Truncating(s0, Abs(), n)
        invariant !blockBusy ==> forall j: nat | j < i :: Ptr(Abs(), n, Zone(j)) == 0
        invariant blockBusy ==> Blocked(s0, n, busy)
      {
        var z := inodes[n].zones[i];
        if z != 0 {
          assert Points(s0, n, Zone(i), z);
          var ok := FreeSlot(s0, n, Zone(i), z, busy);
          if !ok { blockBusy := true; }
        }
        i := i + 1;
      }
    }

    /** "if (free_ind(zone[7])) zone[7] = 0", and the same for free_dind and zone[8]. */
    method FreeTree(ghost s0: Fs, n: nat, k: nat, busy: set<nat>) returns (ok: bool)
      requires Valid() && Truncating(s0, Abs(), n) && n < inodes.Length && 7 <= k <= 8
      modifies zmap, blocks, inodes
      ensures Truncating(s0, Abs(), n)
      ensures forall j: nat | j != k :: Ptr(Abs(), n, Zone(j)) == Ptr(old(Abs()), n, Zone(j))
      ensures ok ==> Ptr(Abs(), n, Zone(k)) == 0
      ensures !ok ==> Blocked(s0, n, busy)
    {
      var z := inodes[n].zones[k];
      ghost var s1;
      if k == 7 {
        ok, s1 := FreeInd(s0, n, Zone(7), z, busy);
      } else {
        ok, s1 := FreeDind(s0, n, z, busy);
      }
      if ok && z != 0 { ClearSlot(s0, s1, n, Zone(k)); }
    }

    /** One attempt of truncate over all nine zones. */
    method FreeZones(ghost s0: Fs, n: nat, busy: set<nat>) returns (blockBusy: bool)
      requires Valid() && Truncating(s0, Abs(), n) && n < inodes.Length
      modifies zmap, blocks, inodes
      ensures Truncating(s0, Abs(), n)
      ensures !blockBusy ==> forall k: nat | k < 9 :: Ptr(Abs(), n, Zone(k)) == 0
      ensures blockBusy ==> Blocked(s0, n, busy)
    {
      blockBusy := FreeDirect(s0, n, busy);
      var ok := FreeTree(s0, n, 7, busy);
      if !ok { blockBusy := true; }
      ok := FreeTree(s0, n, 8, busy);
      if !ok { blockBusy := true; }
    }

    /** truncate on a regular file, directory or link, with `busy[i]` the blocks that others
        hold during attempt i; false if all these attempts meet a busy block. */
    method Truncate(n: nat, busy: seq<set<nat>>) returns (done: bool)
      requires Valid() && WF(Abs()) && n < inodes.Length
      modifies zmap, blocks, inodes
      ensures WF(Abs())
      ensures !done ==> Truncating(old(Abs()), Abs(), n)
      ensures done ==> Emptied(old(Abs()), Abs(), n)
      ensures (exists i | 0 <= i < |busy| :: !Blocked(old(Abs()), n, busy[i])) ==> done
    {
      ghost var s0 := Abs();
      var pass := 0;
      while pass < |busy|
        invariant 0 <= pass <= |busy| && Truncating(s0, Abs(), n)
        invariant forall i | 0 <= i < pass :: Blocked(s0, n, busy[i])
      {
        var blockBusy := FreeZones(s0, n, busy[pass]);
        if !blockBusy {
          SetEmpty(s0, n);
          return true;
        }
        pass := pass + 1;
      }
      return false;
    }

    /** The end of truncate. */
    method SetEmpty(ghost s0: Fs, n: nat)
      requires Valid() && Truncating(s0, Abs(), n) && n < inodes.Length
      requires forall k: nat | k < 9 :: Ptr(Abs(), n, Zone(k)) == 0
      modifies inodes
      ensures WF(Abs()) && Emptied(s0, Abs(), n)
    {
      ghost var s := Abs();
      EmptyZones(s0, s, n);
      SizeOnly(s, n, 0);
      inodes[n] := inodes[n].(size := 0);
      assert Abs() == s.(inodes := s.inodes[n := s.inodes[n].(size := 0)]);
    }
  }

  ghost function Flat(m: array2<bool>): (r: seq<bool>)
    reads m
    requires m.Length1 == MAP_BITS
    ensures |r| == m.Length0 * MAP_BITS
    ensures forall i | 0 <= i < m.Length0 * MAP_BITS ::
      i / MAP_BITS < m.Length0 && r[i] == m[i / MAP_BITS, i % MAP_BITS]
  {
    seq(m.Length0 * MAP_BITS, i requires 0 <= i < m.Length0 * MAP_BITS reads m => m[i / MAP_BITS, i % MAP_BITS])
  }

  /** The pointer blocks on the way to a data block exist. */
  lemma PathBlocks(s: Fs, n: nat, b: nat)
    requires WF(s) && n < |s.inodes| && b < MAX_BLOCKS
    ensures s.inodes[n].zones[7] < |s.blocks| && s.inodes[n].zones[8] < |s.blocks|
    ensures b >= 519 ==> (b - 519) / 512 < 512 && PointerAt(s, s.inodes[n].zones[8], (b - 519) / 512) < |s.blocks|
  {
    assert Ptr(s, n, Zone(7)) != 0 ==> Points(s, n, Zone(7), Ptr(s, n, Zone(7)));
    assert Ptr(s, n, Zone(8)) != 0 ==> Points(s, n, Zone(8), Ptr(s, n, Zone(8)));
    if b >= 519 {
      var t := Dind((b - 519) / 512);
      assert Ptr(s, n, t) == PointerAt(s, s.inodes[n].zones[8], (b - 519) / 512);
      assert Ptr(s, n, t) != 0 ==> Points(s, n, t, Ptr(s, n, t));
    }
  }

  /** Bit numbers and (map, bit) pairs correspond: free_block's division undoes new_block's sum. */
  lemma MapIndex(b: nat)
    ensures b == (b / MAP_BITS) * MAP_BITS + b % MAP_BITS
  {
  }

  lemma FlatAt(m: array2<bool>, i: nat, j: nat)
    requires m.Length1 == MAP_BITS && i < m.Length0 && j < MAP_BITS
    ensures (i * MAP_BITS + j) / MAP_BITS == i && (i * MAP_BITS + j) % MAP_BITS == j
    ensures i * MAP_BITS + j < m.Length0 * MAP_BITS
    ensures Flat(m)[i * MAP_BITS + j] == m[i, j]
  {
  }

  lemma FlatStore(was: seq<bool>, now: seq<bool>, b: nat, v: bool)
    requires |was| == |now| && b < |was|
    requires forall i | 0 <= i < |now| ::
      now[i] == if i / MAP_BITS == b / MAP_BITS && i % MAP_BITS == b % MAP_BITS then v else was[i]
    ensures now == was[b := v]
  {
    forall i | 0 <= i < |now| ensures now[i] == was[b := v][i] {
      MapIndex(i);
      MapIndex(b);
    }
  }

  /** Bytes start, start+1, .. of one block-bounded chunk lie in one block. */
  lemma SameBlock(start: nat, i: nat)
    requires start % BLOCK_SIZE + i < BLOCK_SIZE
    ensures (start + i) / BLOCK_SIZE == start / BLOCK_SIZE && (start + i) % BLOCK_SIZE == start % BLOCK_SIZE + i
  {
  }

  /** The file's contents from byte p on, as file_read should deliver them. */
  function FileBytes(s: Fs, n: nat, p: nat, count: nat): seq<Byte> {
    seq<Byte>(count, i requires 0 <= i < count => FileByte(s, n, p + i))
  }

  /** In the first seven blocks byte p is that byte of the zone that the inode names for the block. */
  predicate DirectByte(s: Fs, n: nat, p: nat, b: Byte) {
    p < 7 * BLOCK_SIZE && n < |s.inodes| ==>
      var z := s.inodes[n].zones[p / BLOCK_SIZE];
      z < |s.blocks| && b == if z == 0 then 0 else s.blocks[z][p % BLOCK_SIZE]
  }

  lemma DirectBytes(s: Fs, n: nat, p: nat, count: nat)
    requires WF(s) && n < |s.inodes|
    ensures forall k: nat | k < count :: DirectByte(s, n, p + k, FileBytes(s, n, p, count)[k])
  {
    forall k: nat | k < count ensures DirectByte(s, n, p + k, FileBytes(s, n, p, count)[k]) {
      if p + k < 7 * BLOCK_SIZE {
        var b := (p + k) / BLOCK_SIZE;
        TreePath(s, n, b);
        assert Ptr(s, n, Zone(b)) != 0 ==> Points(s, n, Zone(b), Ptr(s, n, Zone(b)));
        assert FileBytes(s, n, p, count)[k] == FileByte(s, n, p + k);
      }
    }
  }

  lemma MoreBytes(s: Fs, n: nat, p: nat, count: nat, more: nat)
    ensures FileBytes(s, n, p, count + more) == FileBytes(s, n, p, count) + FileBytes(s, n, p + count, more)
  {
    var all, parts := FileBytes(s, n, p, count + more), FileBytes(s, n, p, count) + FileBytes(s, n, p + count, more);
    forall i | 0 <= i < |all| ensures all[i] == parts[i] {
      assert p + i == p + count + (i - count);
    }
  }

  lemma ChunkBytes(s: Fs, n: nat, p: nat, count: nat, src: Block)
    requires p % BLOCK_SIZE + count <= BLOCK_SIZE
    requires var z := Ptr(s, n, DataSlot(p / BLOCK_SIZE));
      src == if z == 0 || z >= |s.blocks| then ZeroBlock() else s.blocks[z]
    ensures src[p % BLOCK_SIZE..p % BLOCK_SIZE + count] == FileBytes(s, n, p, count)
  {
    forall i | 0 <= i < count ensures src[p % BLOCK_SIZE..p % BLOCK_SIZE + count][i] == FileBytes(s, n, p, count)[i] {
      SameBlock(p, i);
    }
  }

  function Overlay(b: Block, at: nat, data: seq<Byte>): (r: Block)
    requires at + |data| <= BLOCK_SIZE
    ensures forall j | 0 <= j < BLOCK_SIZE :: r[j] == if at <= j < at + |data| then data[j - at] else b[j]
  {
    b[..at] + data + b[at + |data|..]
  }

  /** File n holds `data` at start, and every other byte of every file is as before. */
  ghost predicate Written(s0: Fs, s: Fs, n: nat, start: nat, data: seq<Byte>) {
    && |s.inodes| == |s0.inodes|
    && (forall i | 0 <= i < |s0.inodes| && i != n :: s.inodes[i].size == s0.inodes[i].size)
    && forall n': nat, p: nat ::
      FileByte(s, n', p) == if n' == n && start <= p < start + |data| then data[p - start] else FileByte(s0, n', p)
  }

  lemma OverlayWritten(s: Fs, s': Fs, n: nat, start: nat, data: seq<Byte>)
    requires WF(s) && start % BLOCK_SIZE + |data| <= BLOCK_SIZE && 0 < |data|
    requires 0 < Ptr(s, n, DataSlot(start / BLOCK_SIZE)) < |s.blocks|
    requires s' == Fill(s, n, start / BLOCK_SIZE, Overlay(s.blocks[Ptr(s, n, DataSlot(start / BLOCK_SIZE))],
        start % BLOCK_SIZE, data))
    ensures Written(s, s', n, start, data)
  {
    var k := start / BLOCK_SIZE;
    FillBytes(s, n, k, Overlay(s.blocks[Ptr(s, n, DataSlot(k))], start % BLOCK_SIZE, data));
    forall n': nat, p: nat
      ensures FileByte(s', n', p) == if n' == n && start <= p < start + |data| then data[p - start] else
        FileByte(s, n', p)
    {
      if n' == n && start <= p < start + |data| { SameBlock(start, p - start); }
    }
  }

  lemma GrownWritten(s0: Fs, s1: Fs, s2: Fs, n: nat, k: nat, start: nat, data: seq<Byte>)
    requires Written(s0, s1, n, start, data) && Grown(s1, s2, n, k)
    ensures Written(s0, s2, n, start, data)
  {
  }

  lemma WrittenMore(s0: Fs, s1: Fs, s2: Fs, n: nat, start: nat, buf: seq<Byte>, i: nat, c: nat)
    requires i + c <= |buf| && Written(s0, s1, n, start, buf[..i]) && Written(s1, s2, n, start + i, buf[i..i + c])
    ensures Written(s0, s2, n, start, buf[..i + c])
  {
  }

  function Larger(a: nat, b: nat): nat {
    if b > a then b else a
  }

  /** The i-th slot inside the block of slot up. */
  function Below(up: Slot, i: nat): Slot {
    match up
    case Zone(_) => Ind(i)
    case Dind(k) => Leaf(k, i)
    case _ => up
  }

  /** Some block of file n is held by somebody else. */
  ghost predicate Blocked(s: Fs, n: nat, busy: set<nat>) {
    exists z <- busy :: Reached(s, n, z)
  }

  lemma NothingBelow(s: Fs, n: nat, up: Slot)
    requires up == Zone(7) || up.Dind?
    requires forall j: nat | j < NINDIRECT :: Ptr(s, n, Below(up, j)) == 0
    ensures NoChildren(s, n, up)
  {
    forall c: Slot | !c.Zone? && Parent(c) == up ensures Ptr(s, n, c) == 0 {
      if ValidSlot(c) { assert c == Below(up, Index(c)); }
    }
  }

  lemma NothingUnderDind(s: Fs, n: nat)
    requires forall j: nat | j < NINDIRECT :: Ptr(s, n, Dind(j)) == 0
    ensures NoChildren(s, n, Zone(8))
  {
    forall c: Slot | !c.Zone? && Parent(c) == Zone(8) ensures Ptr(s, n, c) == 0 {
      if ValidSlot(c) { assert c == Dind(Index(c)); }
    }
  }

  /** Only pointers directly below `up` may have changed, and only to zero. */
  ghost predicate OnlyBelow(s: Fs, s1: Fs, n: nat, up: Slot) {
    forall t: Slot | t.Zone? || Parent(t) != up :: Ptr(s1, n, t) == Ptr(s, n, t)
  }

  /** Nothing of file n is left, its blocks and no others are free again, and no byte or
      block of another file has changed. */
  ghost predicate Emptied(s0: Fs, s: Fs, n: nat) {
    && n < |s.inodes| == |s0.inodes| && s.inodes[n].size == 0
    && (forall t: Slot :: Ptr(s, n, t) == 0)
    && (forall z: nat :: Marked(s, z) <==> Marked(s0, z) && !Reached(s0, n, z))
    && (forall n': nat, t: Slot | n' != n :: Ptr(s, n', t) == Ptr(s0, n', t))
    && (forall n': nat, p: nat | n' != n :: FileByte(s, n', p) == FileByte(s0, n', p))
  }

  lemma {:induction false} NoZonesNoPtr(s: Fs, n: nat, t: Slot)
    requires forall k: nat | k < 9 :: Ptr(s, n, Zone(k)) == 0
    ensures Ptr(s, n, t) == 0
    decreases Depth(t)
  {
    if n < |s.inodes| && ValidSlot(t) {
      if t.Zone? { assert Ptr(s, n, Zone(t.k)) == 0; } else { NoZonesNoPtr(s, n, Parent(t)); }
    }
  }

  lemma EmptyZones(s0: Fs, s: Fs, n: nat)
    requires Truncating(s0, s, n) && n < |s.inodes| && forall k: nat | k < 9 :: Ptr(s, n, Zone(k)) == 0
    ensures forall t: Slot :: Ptr(s, n, t) == 0
    ensures forall z: nat :: Marked(s, z) <==> Marked(s0, z) && !Reached(s0, n, z)
  {
    forall t: Slot ensures Ptr(s, n, t) == 0 { NoZonesNoPtr(s, n, t); }
  }
}
