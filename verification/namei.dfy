/** mknod, mkdir, rmdir, link, unlink and symlink, on one device. A path's directory and last
    part are given (dir_namei), and so are the answers of permission and, as the device may be full
    at any moment, those of new_inode and new_block. */
module NameSpace {
  import opened Directories
  import opened LinkCounts

  /** 0, ENOENT, EPERM, EACCES, EEXIST, ENOSPC, ENOTDIR and ENOTEMPTY. */
  datatype Result = Done | NoEntry | NotPermitted | Denied | Exists | NoSpace | NotDirectory | NotEmpty

  /** The name that find_entry looks for: ".." in the process's root is ".". */
  function Sought(d: nat, top: nat, name: seq<nat>): seq<nat> {
    if d == top && name == [46, 46] then [46] else name
  }

  predicate Named(name: seq<nat>) {
    name != [] && 0 !in name
  }

  /** The inode that the directory d has for a name, 0 if none. */
  function Found(s: Inodes, d: nat, top: nat, name: seq<nat>): nat
    requires d in s
  {
    Lookup(s[d].entries, Pad(Sought(d, top, name)))
  }

  predicate IsDir(s: Inodes, i: nat) {
    i in s && s[i].dir
  }

  /** A directory can take one more entry: it has its first block, and a free place there or in
      another, or gets a block for one. */
  predicate CanTake(entries: seq<Entry>, grow: bool) {
    entries != [] && ((exists k: nat :: k < |entries| && entries[k].inode == 0) || |entries| % 64 != 0 || grow)
  }

  /** d as a map from names has changed in one name only, and no other directory that was there
      has changed. */
  ghost predicate Bound(s: Inodes, s': Inodes, d: nat, name: seq<nat>, i: nat) {
    && d in s && d in s'
    && (forall n: seq<nat> :: Lookup(s'[d].entries, n) == if n == name then i else Lookup(s[d].entries, n))
    && (forall x | x in s && x in s' && x != d :: s'[x].entries == s[x].entries)
  }

  /** The name is that of an inode that is no directory. */
  predicate NamesFile(s: Inodes, d: nat, name: seq<nat>) {
    d in s && var i := Lookup(s[d].entries, name); i != 0 && i in s && !s[i].dir
  }

  /** The name is that of an empty directory that nobody holds, and not of d itself. */
  ghost predicate NamesEmpty(s: Inodes, busy: set<nat>, d: nat, name: seq<nat>) {
    d in s && var c := Lookup(s[d].entries, name); c != 0 && c !in busy && c != d && Empty(s, c)
  }

  /** A directory without entries, as mknod makes them. */
  predicate Bare(s: Inodes, i: nat) {
    i in s && s[i].dir && s[i].entries == [] && s[i].nlinks >= 1
  }

  /** It stays as it is: it cannot be unlinked or removed, and nothing can be put into it. */
  ghost predicate BareStay(s: Inodes, s': Inodes) {
    forall i | Bare(s, i) :: i in s' && s'[i] == s[i]
  }

  /** Every call keeps such directories, so over any sequence of calls they are there, unchanged,
      and not what rmdir takes for empty. */
  lemma {:induction false} BareForever(trees: seq<Inodes>, i: nat)
    requires trees != [] && Bare(trees[0], i)
    requires forall k: nat | k + 1 < |trees| :: BareStay(trees[k], trees[k + 1])
    ensures var last := trees[|trees| - 1]; Bare(last, i) && last[i] == trees[0][i] && !Empty(last, i)
  {
    if |trees| > 1 {
      var rest := trees[..|trees| - 1];
      BareForever(rest, i);
      assert rest[|rest| - 1] == trees[|trees| - 2];
      assert BareStay(trees[|trees| - 2], trees[|trees| - 2 + 1]);
    }
  }

  class FileTree {
    const root: nat
    var inodes: Inodes
    var busy: set<nat>     // inodes that others hold, too
    var top: nat           // current->root

    ghost predicate Valid()
      reads this
    {
      Inv(inodes, root) && Populated(inodes, top) && top in busy && forall b | b in busy :: b in inodes
    }

    /** A device with nothing on it but its root, whose ".." is itself. */
    constructor (root: nat)
      requires root != 0
      ensures Valid() && inodes == map[root := Inode(true, 2, [Entry(root, Dot()), Entry(root, DotDot())])]
    {
      this.root, busy, top := root, {root}, root;
      inodes := map[root := Inode(true, 2, [Entry(root, Dot()), Entry(root, DotDot())])];
      new;
      NewDirShaped(inodes, root, root);
      assert Refs(inodes, root) == {(root, 0), (root, 1)};
    }

    /** find_entry, without mount points. */
    method FindEntry(d: nat, name: seq<nat>) returns (found: bool, k: nat)
      requires Shaped(inodes, d) && Named(name)
      ensures var es := inodes[d].entries; var n := if d == top && name == [46, 46] then Dot() else Pad(name);
              if found then k < |es| && es[k].inode != 0 && es[k].name == n &&
                  Lookup(es, n) == es[k].inode else Lookup(es, n) == 0
    {
      var sought := Sought(d, top, name);
      var part := sought[..Min(|sought|, 14)];
      CutName(sought);
      var es := inodes[d].entries;
      k := 0;
      while k < |es|
        invariant k <= |es| && forall j: nat | j < k :: !(es[j].inode != 0 && es[j].name == Pad(sought))
      {
        MatchExact(part, es[k]);
        if Match(part, es[k]) {
          LookupAt(es, k);
          return true, k;
        }
        k := k + 1;
      }
      LookupNone(es, Pad(sought));
      return false, 0;
    }

    /** add_entry: the place, with the name written and no inode yet. A directory without its
        first block can take nothing. */
    method AddEntry(d: nat, name: seq<nat>, grow: bool) returns (ok: bool, k: nat)
      requires Named(name) && d in inodes
      modifies `inodes
      ensures ok <==> CanTake(old(inodes)[d].entries, grow)
      ensures ok ==> d in inodes && inodes == old(inodes)[d := inodes[d]]
      ensures ok ==> inodes[d] == old(inodes)[d].(entries := inodes[d].entries)
      ensures ok ==>
        old(inodes)[d].entries != [] && Placed(old(inodes)[d].entries, inodes[d].entries, k, Entry(0, Pad(name)))
      ensures !ok ==> inodes == old(inodes)
    {
      var es := inodes[d].entries;
      k := 0;
      if es == [] { return false, 0; }
      while k < |es| && es[k].inode != 0
        invariant k <= |es| && forall j: nat | j < k :: es[j].inode != 0
      {
        k := k + 1;
      }
      if k == |es| && k % 64 == 0 && !grow { return false, k; }
      var e := Entry(0, Pad(name));
      inodes := inodes[d := inodes[d].(entries := es[..k] + [e] + es[Min(k + 1, |es|)..])];
      ok := true;
    }

    /** iput's effect on an inode that this call alone has held. */
    method Iput(i: nat)
      requires i in inodes
      modifies `inodes
      ensures inodes == if old(inodes)[i].nlinks == 0 && i !in busy then old(inodes) - {i} else old(inodes)
    {
      if inodes[i].nlinks == 0 && i !in busy {
        inodes := inodes - {i};
      }
    }

    /** new_inode: a number not in use, with one link; 0 if there is none. */
    method NewInode(dir: bool, ok: bool) returns (i: nat)
      requires forall j | j in inodes :: j != 0
      modifies `inodes
      ensures i == 0 <==> !ok
      ensures i == 0 ==> inodes == old(inodes)
      ensures i != 0 ==> i !in old(inodes) && inodes == old(inodes)[i := Inode(dir, 1, [])]
    {
      if !ok { return 0; }
      i := FreeNumber();
      inodes := inodes[i := Inode(dir, 1, [])];
    }

    method FreeNumber() returns (i: nat)
      ensures i != 0 && i !in inodes
    {
      var left := inodes.Keys;
      i := 1;
      while i in inodes
        invariant i > 0 && forall j | j in inodes && j >= i :: j in left
        decreases left
      {
        left := left - {i};
        i := i + 1;
      }
    }

    /** An entry for i is put in. */
    method Enter(d: nat, name: seq<nat>, i: nat, grow: bool) returns (ok: bool)
      requires d in inodes && Shaped(inodes, d) && Named(name) && Lookup(inodes[d].entries, Pad(name)) == 0 && i != 0
      modifies `inodes
      ensures ok <==> CanTake(old(inodes)[d].entries, grow)
      ensures if ok then Entered(old(inodes), inodes, d, Pad(name), i) else inodes == old(inodes)
    {
      var k;
      ok, k := AddEntry(d, name, grow);
      if ok {
        inodes := inodes[d := inodes[d].(entries := inodes[d].entries[k := Entry(i, Pad(name))])];
        PlacedEntered(old(inodes), inodes, d, k, name, i);
      }
    }

    /** The search most of these calls begin with; Done if the name may be used for a new entry. */
    method Begin(d: nat, name: seq<nat>, may: bool) returns (r: Result)
      requires Valid() && d in inodes && 0 !in name
      ensures r == if name == [] then NoEntry else if !may then NotPermitted
        else if Found(inodes, d, top, name) != 0 then Exists else Done
      ensures r.Done? ==> Named(name) && Lookup(inodes[d].entries, Pad(name)) == 0
    {
      if name == [] { return NoEntry; }
      if !may { return NotPermitted; }
      assert Shaped(inodes, d);
      var found, k := FindEntry(d, name);
      if found { return Exists; }
      SoughtIsName(inodes, root, d, top, name);
      r := Done;
    }

    /** mknod: the name gives a new inode, unless it is taken or something is full. */
    method Mknod(d: nat, name: seq<nat>, dir: bool, may: bool, inode: bool, grow: bool) returns (r: Result, i: nat)
      requires Valid() && d in inodes && 0 !in name
      modifies `inodes
      ensures Valid()
      ensures r == if name == [] then NoEntry else if !may then NotPermitted
        else if Found(old(inodes), d, top, name) != 0 then Exists
        else if inode && CanTake(old(inodes)[d].entries, grow) then Done else NoSpace
      ensures if r.Done? then i in inodes && i !in old(inodes) && inodes[i] == Inode(dir, 1, []) &&
          Bound(old(inodes), inodes, d, Pad(name), i)
              else inodes == old(inodes)
      ensures BareStay(old(inodes), inodes) && (r.Done? && dir ==> Bare(inodes, i))
    {
      i := 0;
      r := Begin(d, name, may);
      if !r.Done? { return; }
      assert Shaped(inodes, d);
      NoZero(inodes, root);
      i := NewInode(dir, inode);
      if i == 0 { return NoSpace, i; }
      ghost var s1 := inodes;
      var ok := Enter(d, name, i, grow);
      if !ok {
        inodes := inodes[i := inodes[i].(nlinks := 0)];
        Iput(i);
        assert inodes == old(inodes);
        return NoSpace, i;
      }
      NewEntered(old(inodes), s1, inodes, root, d, Pad(name), i, dir);
    }

    /** link: a second name for an inode that is no directory. */
    method Link(i: nat, d: nat, name: seq<nat>, may: bool, grow: bool) returns (r: Result)
      requires Valid() && i in inodes && d in inodes && 0 !in name
      modifies `inodes
      ensures Valid()
      ensures if r.Done? then i in inodes && inodes[i] == old(inodes)[i].(nlinks := old(inodes)[i].nlinks + 1) &&
          Bound(old(inodes), inodes, d, Pad(name), i)
              else inodes == old(inodes)
      ensures r == if old(inodes)[i].dir || name == [] then NotPermitted else if !may then Denied
        else if Found(old(inodes), d, top, name) != 0 then Exists
        else if CanTake(old(inodes)[d].entries, grow) then Done else NoSpace
      ensures BareStay(old(inodes), inodes)
    {
      if inodes[i].dir || name == [] { return NotPermitted; }
      if !may { return Denied; }
      r := Begin(d, name, may);
      if !r.Done? { return; }
      assert Shaped(inodes, d) && Shaped(inodes, i);
      var ok := Enter(d, name, i, grow);
      if !ok { return NoSpace; }
      ghost var s1 := inodes;
      inodes := inodes[i := inodes[i].(nlinks := inodes[i].nlinks + 1)];
      OldEntered(old(inodes), s1, inodes, root, d, Pad(name), i);
    }

    /** mkdir: a directory of two entries, "." and "..". */
    method Mkdir(d: nat, name: seq<nat>, may: bool, inode: bool, block: bool, grow: bool) returns (r: Result, i: nat)
      requires Valid() && d in inodes && 0 !in name
      modifies `inodes
      ensures Valid()
      ensures r == if name == [] then NoEntry else if !may then NotPermitted
        else if Found(old(inodes), d, top, name) != 0 then Exists
        else if inode && block && CanTake(old(inodes)[d].entries, grow) then Done else NoSpace
      ensures if r.Done? then
          i in inodes && i !in old(inodes) && inodes[i] == Inode(true, 2, [Entry(i, Dot()), Entry(d, DotDot())]) &&
          Bound(old(inodes), inodes, d, Pad(name), i) && inodes[d].nlinks == old(inodes)[d].nlinks + 1
        else inodes == old(inodes)
      ensures BareStay(old(inodes), inodes)
    {
      ghost var s0 := inodes;
      i := 0;
      r := Begin(d, name, may);
      if !r.Done? { return; }
      assert Shaped(inodes, d);
      NoZero(inodes, root);
      i := NewInode(false, inode);
      if i == 0 { return NoSpace, i; }
      if !block {
        inodes := inodes[i := inodes[i].(nlinks := inodes[i].nlinks - 1)];
        Iput(i);
        assert inodes == old(inodes);
        return NoSpace, i;
      }
      var ok := EnterDir(s0, d, name, i, grow);
      if !ok { r := NoSpace; }
    }

    /** mkdir from the place where it fills the first block of the new inode i. */
    method EnterDir(ghost s0: Inodes, d: nat, name: seq<nat>, i: nat, grow: bool) returns (ok: bool)
      requires Inv(s0, root) && d in s0 && i !in s0 && i != 0 && i !in busy && inodes == s0[i := Inode(false, 1, [])]
      requires Named(name) && Lookup(s0[d].entries, Pad(name)) == 0
      modifies `inodes
      ensures ok <==> CanTake(s0[d].entries, grow)
      ensures if ok then
          && Inv(inodes, root) && Bound(s0, inodes, d, Pad(name), i)
          && i in inodes && inodes[i] == Inode(true, 2, [Entry(i, Dot()), Entry(d, DotDot())])
          && inodes[d].nlinks == s0[d].nlinks + 1
          && (forall x: nat | Populated(s0, x) :: Populated(inodes, x))
          && BareStay(s0, inodes) && (forall x | x in s0 :: x in inodes)
        else inodes == s0
    {
      inodes := inodes[i := Inode(true, 2, [Entry(i, Dot()), Entry(d, DotDot())])];
      ghost var s1 := inodes;
      assert Shaped(s0, d);
      ok := Enter(d, name, i, grow);
      if !ok {
        inodes := inodes[i := inodes[i].(nlinks := 0)];
        Iput(i);
        assert inodes == s0;
        return;
      }
      ghost var s2 := inodes;
      inodes := inodes[d := inodes[d].(nlinks := inodes[d].nlinks + 1)];
      DirEntered(s0, s1, s2, inodes, root, d, Pad(name), i);
    }

    /** symlink: like mknod, but the name is looked for only after the inode and its block are
        there. */
    method Symlink(d: nat, name: seq<nat>, may: bool, inode: bool, block: bool, grow: bool)
      returns (r: Result, i: nat)
      requires Valid() && d in inodes && 0 !in name
      modifies `inodes
      ensures Valid()
      ensures r == if name == [] then NotPermitted else if !may then Denied else if !inode || !block then NoSpace
        else if Found(old(inodes), d, top, name) != 0 then Exists
        else if CanTake(old(inodes)[d].entries, grow) then Done else NoSpace
      ensures if r.Done? then i in inodes && i !in old(inodes) && inodes[i] == Inode(false, 1, []) &&
          Bound(old(inodes), inodes, d, Pad(name), i)
              else inodes == old(inodes)
      ensures BareStay(old(inodes), inodes)
    {
      i := 0;
      if name == [] { return NotPermitted, i; }
      if !may { return Denied, i; }
      assert Shaped(inodes, d);
      NoZero(inodes, root);
      i := NewInode(false, inode);
      if i == 0 { return NoSpace, i; }
      r := NoSpace;
      if block {
        ghost var s1 := inodes;
        assert Shaped(s1, d);
        var found, k := FindEntry(d, name);
        if found {
          r := Exists;
        } else {
          SoughtIsName(old(inodes), root, d, top, name);
          var ok := Enter(d, name, i, grow);
          if ok {
            NewEntered(old(inodes), s1, inodes, root, d, Pad(name), i, false);
            return Done, i;
          }
        }
      }
      inodes := inodes[i := inodes[i].(nlinks := inodes[i].nlinks - 1)];
      Iput(i);
      assert inodes == old(inodes);
    }

    /** unlink. An inode loses a link, and goes with the last unless somebody holds it. */
    method Unlink(d: nat, name: seq<nat>, may: bool, sticky: bool) returns (r: Result, i: nat)
      requires Valid() && d in inodes && 0 !in name
      modifies `inodes
      ensures Valid()
      ensures if r.Done? then
          i in old(inodes) && !old(inodes)[i].dir && old(inodes)[i].nlinks >= 1 &&
              Lookup(old(inodes)[d].entries, Pad(name)) == i &&
          Bound(old(inodes), inodes, d, Pad(name), 0) &&
          (i !in inodes <==> old(inodes)[i].nlinks == 1 && i !in busy) &&
          (i in inodes ==> inodes[i] == old(inodes)[i].(nlinks := old(inodes)[i].nlinks - 1))
        else inodes == old(inodes)
      ensures r.Done? <==> name != [] && may && !sticky && NamesFile(old(inodes), d, Pad(Sought(d, top, name)))
      ensures r == if name == [] then NoEntry else if !may then NotPermitted
        else if Found(old(inodes), d, top, name) == 0 then NoEntry
        else if sticky || IsDir(old(inodes), Found(old(inodes), d, top, name)) then NotPermitted else Done
      ensures BareStay(old(inodes), inodes)
    {
      i := 0;
      if name == [] { return NoEntry, i; }
      if !may { return NotPermitted, i; }
      assert Shaped(inodes, d);
      var found, k := FindEntry(d, name);
      if !found { return NoEntry, i; }
      assert EntryAt(inodes, d, k) in inodes;
      i := inodes[d].entries[k].inode;
      if sticky || inodes[i].dir { return NotPermitted, i; }
      FileEntry(inodes, root, d, k, i);
      SoughtChild(inodes, root, d, top, name, k, i);
      inodes := inodes[d := inodes[d].(entries := inodes[d].entries[k := inodes[d].entries[k].(inode := 0)])];
      inodes := inodes[i := inodes[i].(nlinks := inodes[i].nlinks - 1)];
      Iput(i);
      EntryCleared(old(inodes), inodes, root, d, k, i, i !in inodes);
      r := Done;
    }

    /** empty_dir. */
    method EmptyDir(c: nat) returns (empty: bool)
      requires Shaped(inodes, c)
      ensures empty <==> Empty(inodes, c)
    {
      var es := inodes[c].entries;
      if |es| < 2 || es[0].inode != c || es[1].inode == 0 || es[0].name != Dot() || es[1].name != DotDot() {
        return false;
      }
      var nr := 2;
      while nr < |es|
        invariant 2 <= nr <= |es| && forall y: nat | 2 <= y < nr :: EntryAt(inodes, c, y) == 0
      {
        if es[nr].inode != 0 {
          assert EntryAt(inodes, c, nr) != 0;
          return false;
        }
        nr := nr + 1;
      }
      return true;
    }

    /** rmdir: only of an empty directory that nobody holds, and not under the name ".". */
    method Rmdir(d: nat, name: seq<nat>, may: bool, sticky: bool) returns (r: Result, c: nat)
      requires Valid() && d in inodes && 0 !in name
      modifies `inodes
      ensures Valid()
      ensures if r.Done? then
          Empty(old(inodes), c) && c !in inodes && c !in busy && Lookup(old(inodes)[d].entries, Pad(name)) == c &&
          Bound(old(inodes), inodes, d, Pad(name), 0) && inodes[d].nlinks == old(inodes)[d].nlinks - 1
        else inodes == old(inodes)
      ensures r.Done? <==> name != [] && may && !sticky && NamesEmpty(old(inodes), busy, d, Pad(Sought(d, top, name)))
      ensures r == if name == [] then NoEntry else if !may then NotPermitted
        else if Found(old(inodes), d, top, name) == 0 then NoEntry
        else if sticky || Found(old(inodes), d, top, name) in busy + {d} then NotPermitted
        else if !IsDir(old(inodes), Found(old(inodes), d, top, name)) then NotDirectory
        else if !Empty(old(inodes), Found(old(inodes), d, top, name)) then NotEmpty else Done
      ensures BareStay(old(inodes), inodes)
    {
      c := 0;
      if name == [] { return NoEntry, c; }
      if !may { return NotPermitted, c; }
      assert Shaped(inodes, d);
      var found, k := FindEntry(d, name);
      if !found { return NoEntry, c; }
      assert EntryAt(inodes, d, k) in inodes;
      c := inodes[d].entries[k].inode;
      assert Shaped(inodes, c);
      if sticky || c in busy || c == d { return NotPermitted, c; }
      if !inodes[c].dir { return NotDirectory, c; }
      var empty := EmptyDir(c);
      if !empty { return NotEmpty, c; }
      EmptyIsChild(inodes, root, d, k, c);
      EmptyRefs(inodes, root, d, k, c);
      SoughtChild(inodes, root, d, top, name, k, c);
      inodes := inodes[d := inodes[d].(entries := inodes[d].entries[k := inodes[d].entries[k].(inode := 0)])];
      inodes := inodes[c := inodes[c].(nlinks := 0)];
      ParentCounts(old(inodes), root, d, c);
      inodes := inodes[d := inodes[d].(nlinks := inodes[d].nlinks - 1)];
      Iput(c);
      ChildRemoved(old(inodes), inodes, root, d, k, c);
      r := Done;
    }

    /** Another process lets go of an inode: if it was unlinked meanwhile, it goes now. */
    method Close(i: nat)
      requires Valid() && i in busy && i != top
      modifies `inodes, `busy
      ensures Valid() && busy == old(busy) - {i}
      ensures inodes == if old(inodes)[i].nlinks == 0 then old(inodes) - {i} else old(inodes)
      ensures BareStay(old(inodes), inodes)
    {
      if inodes[i].nlinks == 0 { Forgotten(inodes, root, i); }
      busy := busy - {i};
      Iput(i);
    }
  }

  lemma SoughtIsName(s: Inodes, root: nat, d: nat, top: nat, name: seq<nat>)
    requires Tree(s, root) && Populated(s, top) && d in s && Lookup(s[d].entries, Pad(Sought(d, top, name))) == 0
    ensures Sought(d, top, name) == name
  {
    assert Shaped(s, top);
    LookupAt(s[top].entries, 0);
  }

  lemma NoZero(s: Inodes, root: nat)
    requires Tree(s, root)
    ensures forall j | j in s :: j != 0
  {
    forall j | j in s ensures j != 0 { assert Shaped(s, j); }
  }

  lemma NewEntered(s: Inodes, s1: Inodes, s': Inodes, root: nat, d: nat, name: seq<nat>, i: nat, dir: bool)
    requires Inv(s, root) && i !in s && i != 0 && d in s && s1 == s[i := Inode(dir, 1, [])]
    requires Entered(s1, s', d, name, i)
    ensures Inv(s', root) && Bound(s, s', d, name, i) && s'[i] == s1[i]
    ensures forall x: nat | Populated(s, x) :: Populated(s', x)
  {
    var k: nat :| k >= 2 && EntryAt(s1, d, k) == 0 &&
      forall x: nat, y: nat {:trigger EntryAt(s', x, y)} ::
        EntryAt(s', x, y) == if x == d && y == k then i else EntryAt(s1, x, y);
    assert forall x: nat, y: nat {:trigger EntryAt(s1, x, y)} :: EntryAt(s1, x, y) == EntryAt(s, x, y);
    assert Linked(s, s', d, k, i);
    SamePopulated(s, s', d, k, i);
    LinkedTree(s, s', root, d, k, i);
    LinkedCounted(s, s', root, d, k, i);
  }

  lemma OldEntered(s: Inodes, s1: Inodes, s': Inodes, root: nat, d: nat, name: seq<nat>, i: nat)
    requires Inv(s, root) && i in s && i != d && !Populated(s, i) && i != 0 && Entered(s, s1, d, name, i)
    requires i in s1 && s' == s1[i := s1[i].(nlinks := s1[i].nlinks + 1)]
    ensures Inv(s', root) && Bound(s, s', d, name, i)
    ensures forall x: nat | Populated(s, x) :: Populated(s', x)
  {
    var k: nat :| k >= 2 && EntryAt(s, d, k) == 0 &&
      forall x: nat, y: nat {:trigger EntryAt(s1, x, y)} ::
        EntryAt(s1, x, y) == if x == d && y == k then i else EntryAt(s, x, y);
    assert forall x: nat, y: nat {:trigger EntryAt(s', x, y)} :: EntryAt(s', x, y) == EntryAt(s1, x, y);
    assert Shaped(s1, d);
    assert Linked(s, s', d, k, i);
    SamePopulated(s, s', d, k, i);
    LinkedTree(s, s', root, d, k, i);
    LinkedCounted(s, s', root, d, k, i);
  }

  lemma DirEntered(s: Inodes, s1: Inodes, s2: Inodes, s': Inodes, root: nat, d: nat, name: seq<nat>, i: nat)
    requires Inv(s, root) && i !in s && i != 0 && d in s
    requires s1 == s[i := Inode(true, 2, [Entry(i, Dot()), Entry(d, DotDot())])]
    requires Entered(s1, s2, d, name, i) && s' == s2[d := s2[d].(nlinks := s2[d].nlinks + 1)]
    ensures Inv(s', root) && Bound(s, s', d, name, i) && s'[i] == s1[i]
    ensures forall x: nat | Populated(s, x) :: Populated(s', x)
  {
    var k: nat :| k >= 2 && EntryAt(s1, d, k) == 0 &&
      forall x: nat, y: nat {:trigger EntryAt(s2, x, y)} ::
        EntryAt(s2, x, y) == if x == d && y == k then i else EntryAt(s1, x, y);
    assert forall x: nat, y: nat {:trigger EntryAt(s', x, y)} :: EntryAt(s', x, y) == EntryAt(s2, x, y);
    assert Shaped(s2, d) && Shaped(s, d);
    NewDirShaped(s', i, d);
    assert Made(s, s', d, k, i);
    MadePopulated(s, s', d, k, i);
    MadeTree(s, s', root, d, k, i);
    MadeCounted(s, s', root, d, k, i);
  }

  lemma NewDirShaped(s: Inodes, i: nat, d: nat)
    requires i in s && i != 0 && d != 0 && s[i].dir && s[i].entries == [Entry(i, Dot()), Entry(d, DotDot())]
    ensures Shaped(s, i)
  {
    PadStored([46]);
    PadStored([46, 46]);
    assert Dot()[1] != DotDot()[1];
  }

  /** What unlink finds is not "." or "..", as those name directories. */
  lemma FileEntry(s: Inodes, root: nat, d: nat, k: nat, i: nat)
    requires Inv(s, root) && EntryAt(s, d, k) == i && i in s && !s[i].dir
    ensures k >= 2 && i != d && i != 0 && !Populated(s, i) && s[i].nlinks >= 1
  {
    assert Shaped(s, i) && Shaped(s, d);
    assert (d, k) in Refs(s, i);
    assert k == 1 && d != root ==> HasParent(s, d);
  }

  lemma EntryCleared(s: Inodes, s': Inodes, root: nat, d: nat, k: nat, i: nat, gone: bool)
    requires Inv(s, root) && EntryAt(s, d, k) == i && i in s && d in s && k >= 2 && i != d && i != 0
    requires !Populated(s, i) && s[i].nlinks >= 1
    requires var s1 := s[d := s[d].(entries := s[d].entries[k := s[d].entries[k].(inode := 0)])];
             var s2 := s1[i := s1[i].(nlinks := s1[i].nlinks - 1)];
             (gone ==> s' == s2 - {i} && s[i].nlinks == 1) && (!gone ==> s' == s2)
    ensures Inv(s', root) && Bound(s, s', d, s[d].entries[k].name, 0)
    ensures forall x: nat | Populated(s, x) :: Populated(s', x)
  {
    assert Shaped(s, d);
    forall n: seq<nat>
      ensures Lookup(s'[d].entries, n) == if n == s[d].entries[k].name then 0 else Lookup(s[d].entries, n)
    {
      ClearedLookup(s[d].entries, k, n);
    }
    ClearedLookup(s[d].entries, k, []);
    assert Shaped(s', d);
    assert Unlinked(s, s', d, k, i, gone);
    UnlinkedPopulated(s, s', root, d, k, i, gone);
    UnlinkedTree(s, s', root, d, k, i, gone);
    UnlinkedCounted(s, s', root, d, k, i, gone);
  }

  lemma SoughtChild(s: Inodes, root: nat, d: nat, top: nat, name: seq<nat>, k: nat, c: nat)
    requires Tree(s, root) && d in s && k < |s[d].entries| && EntryAt(s, d, k) == c && k >= 2 && c != 0
    requires s[d].entries[k].name == Pad(Sought(d, top, name))
    ensures Sought(d, top, name) == name
  {
    assert Shaped(s, d);
  }

  lemma ParentCounts(s: Inodes, root: nat, d: nat, c: nat)
    requires Inv(s, root) && EntryAt(s, c, 1) == d && d in s
    ensures s[d].nlinks >= 1
  {
    assert Shaped(s, d);
    assert (c, 1) in Refs(s, d);
  }

  lemma ChildRemoved(s: Inodes, s': Inodes, root: nat, d: nat, k: nat, c: nat)
    requires Inv(s, root) && d in s && k < |s[d].entries| && EntryAt(s, d, k) == c && c in s && k >= 2 && c != d
    requires Empty(s, c) && s[d].nlinks >= 1
    requires var s1 := s[d := s[d].(entries := s[d].entries[k := s[d].entries[k].(inode := 0)])];
             s' == s1[d := s1[d].(nlinks := s1[d].nlinks - 1)] - {c}
    ensures Inv(s', root) && Bound(s, s', d, s[d].entries[k].name, 0)
    ensures forall x: nat | Populated(s, x) && x != c :: Populated(s', x)
  {
    assert Shaped(s, d) && Shaped(s, c);
    forall n: seq<nat>
      ensures Lookup(s'[d].entries, n) == if n == s[d].entries[k].name then 0 else Lookup(s[d].entries, n)
    {
      ClearedLookup(s[d].entries, k, n);
    }
    ClearedLookup(s[d].entries, k, []);
    assert Shaped(s', d);
    assert Removed(s, s', d, k, c);
    RemovedPopulated(s, s', root, d, k, c);
    RemovedTree(s, s', root, d, k, c);
    RemovedCounted(s, s', root, d, k, c);
  }

  /** d has got an entry for i under that name; nothing else has changed. */
  ghost predicate Entered(s: Inodes, s': Inodes, d: nat, name: seq<nat>, i: nat) {
    && Bound(s, s', d, name, i) && s'.Keys == s.Keys
    && Populated(s, d) && Shaped(s', d) && s'[d] == s[d].(entries := s'[d].entries)
    && (forall j | j in s && j != d :: s'[j] == s[j])
    && (exists k: nat {:trigger EntryAt(s, d, k)} :: k >= 2 && EntryAt(s, d, k) == 0 &&
          forall x: nat, y: nat {:trigger EntryAt(s', x, y)} ::
            EntryAt(s', x, y) == if x == d && y == k then i else EntryAt(s, x, y))
  }

  lemma PlacedEntered(s: Inodes, s': Inodes, d: nat, k: nat, name: seq<nat>, i: nat)
    requires d in s && Shaped(s, d) && s[d].entries != [] && i != 0 && Named(name)
    requires Lookup(s[d].entries, Pad(name)) == 0
    requires d in s' && s' == s[d := s'[d]] && s'[d] == s[d].(entries := s'[d].entries)
    requires Placed(s[d].entries, s'[d].entries, k, Entry(i, Pad(name)))
    ensures Entered(s, s', d, Pad(name), i)
  {
    var es, es', e := s[d].entries, s'[d].entries, Entry(i, Pad(name));
    forall n: seq<nat> ensures Lookup(es', n) == if n == Pad(name) then i else Lookup(es, n) {
      PlacedLookup(es, es', k, e, n);
    }
    PlacedLookup(es, es', k, e, Pad(name));
    PlacedAt(es, es', k, e);
    PadStored(name);
    assert es'[0] == es[0] && es'[1] == es[1];
    forall j: nat | j < |es'| ensures Stored(es'[j].name) { assert j != k ==> es'[j] == es[j]; }
    assert EntryAt(s, d, k) == 0;
  }

  lemma CutName(name: seq<nat>)
    ensures Pad(name[..Min(|name|, 14)]) == Pad(name)
  {
  }
}
