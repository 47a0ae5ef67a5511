/** Link counts over the whole tree of directories. */
module LinkCounts {
  import opened Directories

  type Inodes = map<nat, Inode>

  /** The inode named at position k of directory d; 0 where there is none. */
  function EntryAt(s: Inodes, d: nat, k: nat): nat {
    if d in s && k < |s[d].entries| then s[d].entries[k].inode else 0
  }

  /** All the places that name inode i. */
  ghost function Refs(s: Inodes, i: nat): (r: set<(nat, nat)>)
    ensures i != 0 ==> forall d: nat, k: nat :: (d, k) in r <==> EntryAt(s, d, k) == i
  {
    set d, k | d in s && 0 <= k < |s[d].entries| && s[d].entries[k].inode == i :: (d, k)
  }

  predicate Populated(s: Inodes, d: nat) {
    d in s && s[d].entries != []
  }

  /** A directory has "." and ".." in front and no name twice; only directories have entries,
      and one that mknod made has none. */
  ghost predicate Shaped(s: Inodes, d: nat) {
    d in s && d != 0 &&
    (s[d].entries != [] ==>
       && s[d].dir && |s[d].entries| >= 2
       && s[d].entries[0] == Entry(d, Dot())
       && s[d].entries[1].inode != 0 && s[d].entries[1].name == DotDot()
       && DistinctNames(s[d].entries)
       && forall k: nat | k < |s[d].entries| :: Stored(s[d].entries[k].name))
  }

  /** Entry k of d, if it names a directory, is the one that directory's ".." leads back to. */
  predicate LeadsBack(s: Inodes, d: nat, k: nat) {
    var c := EntryAt(s, d, k);
    k >= 2 && Populated(s, c) ==> EntryAt(s, c, 1) == d
  }

  /** The parent of d names it. */
  ghost predicate HasParent(s: Inodes, d: nat) {
    exists k: nat :: k >= 2 && EntryAt(s, EntryAt(s, d, 1), k) == d
  }

  ghost predicate Tree(s: Inodes, root: nat) {
    && Populated(s, root) && EntryAt(s, root, 1) == root
    && (forall d {:trigger Shaped(s, d)} | d in s :: Shaped(s, d))
    && (forall d: nat, k: nat {:trigger EntryAt(s, d, k)} | EntryAt(s, d, k) != 0 :: EntryAt(s, d, k) in s)
    && (forall d: nat, k: nat {:trigger LeadsBack(s, d, k)} :: LeadsBack(s, d, k))
    && (forall d: nat, k: nat, l: nat {:trigger EntryAt(s, d, k), EntryAt(s, d, l)} |
          k >= 2 && l >= 2 && EntryAt(s, d, k) == EntryAt(s, d, l) && Populated(s, EntryAt(s, d, k)) :: k == l)
    && (forall d {:trigger HasParent(s, d)} | Populated(s, d) && d != root :: HasParent(s, d))
  }

  /** i_nlinks is the number of entries that name the inode, "." and ".." included. */
  ghost predicate Counted(s: Inodes) {
    forall i {:trigger Refs(s, i)} | i in s :: s[i].nlinks == |Refs(s, i)|
  }

  ghost predicate Inv(s: Inodes, root: nat) {
    Tree(s, root) && Counted(s)
  }

  /** An entry for i, new or not a directory with entries, is put at a free place of d, and i
      counts one link more. */
  ghost predicate Linked(s: Inodes, s': Inodes, d: nat, k: nat, i: nat) {
    && Populated(s, d) && k >= 2 && i != 0 && !Populated(s, i) && i in s' && d != i
    && s'.Keys == s.Keys + {i}
    && EntryAt(s, d, k) == 0
    && (forall x: nat, y: nat {:trigger EntryAt(s', x, y)} ::
          EntryAt(s', x, y) == if x == d && y == k then i else EntryAt(s, x, y))
    && (forall j | j in s && j != d && j != i :: s'[j] == s[j])
    && s'[d].nlinks == s[d].nlinks && Shaped(s', d)
    && s'[i].entries == [] && s'[i].nlinks == (if i in s then s[i].nlinks else 0) + 1
  }

  lemma LinkedTree(s: Inodes, s': Inodes, root: nat, d: nat, k: nat, i: nat)
    requires Tree(s, root) && Linked(s, s', d, k, i)
    ensures Tree(s', root)
  {
    assert forall x: nat :: Populated(s', x) <==> Populated(s, x) by { SamePopulated(s, s', d, k, i); }
    forall x | x in s' ensures Shaped(s', x) {
      if x in s { assert Shaped(s, x); }
    }
    forall x: nat, y: nat ensures LeadsBack(s', x, y) { assert LeadsBack(s, x, y); }
    forall x | Populated(s', x) && x != root ensures HasParent(s', x) {
      assert HasParent(s, x);
      var y: nat :| y >= 2 && EntryAt(s, EntryAt(s, x, 1), y) == x;
      assert EntryAt(s', EntryAt(s', x, 1), y) == x;
    }
    forall x: nat, y: nat | EntryAt(s', x, y) != 0 ensures EntryAt(s', x, y) in s' {
      assert (x == d && y == k) || EntryAt(s, x, y) in s;
    }
  }

  lemma SamePopulated(s: Inodes, s': Inodes, d: nat, k: nat, i: nat)
    requires Linked(s, s', d, k, i)
    ensures forall x: nat :: Populated(s', x) <==> Populated(s, x)
  {
    forall x: nat ensures Populated(s', x) <==> Populated(s, x) {
      assert x in s' <==> x in s.Keys + {i};
      assert EntryAt(s', d, k) == i;
    }
  }

  lemma LinkedCounted(s: Inodes, s': Inodes, root: nat, d: nat, k: nat, i: nat)
    requires Tree(s, root) && Counted(s) && Linked(s, s', d, k, i)
    ensures Counted(s')
  {
    forall j | j in s' ensures s'[j].nlinks == |Refs(s', j)| {
      assert Shaped(s', d);
      if j == i {
        assert Refs(s', i) == Refs(s, i) + {(d, k)};
        if i !in s { NoRefs(s, root, i); }
      } else {
        assert j in s.Keys + {i} && Shaped(s, j);
        assert Refs(s', j) == Refs(s, j);
      }
    }
  }

  lemma NoRefs(s: Inodes, root: nat, i: nat)
    requires Tree(s, root) && i !in s && i != 0
    ensures Refs(s, i) == {}
  {
    assert forall d: nat, k: nat {:trigger EntryAt(s, d, k)} :: EntryAt(s, d, k) != i;
    assert forall p | p in Refs(s, i) :: EntryAt(s, p.0, p.1) == i;
  }

  /** The entry for i at a place of d goes, and with it one link of i; the inode may go too if
      that was its last. */
  ghost predicate Unlinked(s: Inodes, s': Inodes, d: nat, k: nat, i: nat, gone: bool) {
    && d in s && i in s && i != 0 && EntryAt(s, d, k) == i && !Populated(s, i) && k >= 2 && d != i
    && s'.Keys == s.Keys - (if gone then {i} else {})
    && (forall x: nat, y: nat {:trigger EntryAt(s', x, y)} ::
          EntryAt(s', x, y) == if x == d && y == k then 0 else EntryAt(s, x, y))
    && (forall j | j in s && j != d && j != i :: s'[j] == s[j])
    && s'[d].nlinks == s[d].nlinks && Shaped(s', d)
    && (!gone ==> i in s' && s'[i].entries == [] && s'[i].nlinks == s[i].nlinks - 1)
    && (gone ==> s[i].nlinks == 1)
  }

  lemma UnlinkedPopulated(s: Inodes, s': Inodes, root: nat, d: nat, k: nat, i: nat, gone: bool)
    requires Tree(s, root) && Unlinked(s, s', d, k, i, gone)
    ensures forall x: nat :: Populated(s', x) <==> Populated(s, x)
  {
    forall x: nat ensures Populated(s', x) <==> Populated(s, x) {
      assert x in s' <==> x in s'.Keys;
      assert Shaped(s, d);
      assert EntryAt(s', d, 0) == EntryAt(s, d, 0);
    }
  }

  lemma UnlinkedTree(s: Inodes, s': Inodes, root: nat, d: nat, k: nat, i: nat, gone: bool)
    requires Inv(s, root) && Unlinked(s, s', d, k, i, gone)
    ensures Tree(s', root)
  {
    UnlinkedPopulated(s, s', root, d, k, i, gone);
    forall x | x in s' ensures Shaped(s', x) {
      assert x in s'.Keys && Shaped(s, x);
    }
    forall x: nat, y: nat ensures LeadsBack(s', x, y) { assert LeadsBack(s, x, y); }
    forall x | Populated(s', x) && x != root ensures HasParent(s', x) {
      assert HasParent(s, x);
      var y: nat :| y >= 2 && EntryAt(s, EntryAt(s, x, 1), y) == x;
      assert EntryAt(s', EntryAt(s', x, 1), y) == x;
    }
    forall x: nat, y: nat | EntryAt(s', x, y) != 0 ensures EntryAt(s', x, y) in s' {
      assert EntryAt(s, x, y) in s;
      if gone && EntryAt(s', x, y) == i { OnlyPlace(s, root, d, k, x, y, i); }
      assert EntryAt(s', x, y) in s'.Keys;
    }
  }

  /** An inode with one link is named in one place. */
  lemma OnlyPlace(s: Inodes, root: nat, d: nat, k: nat, x: nat, y: nat, i: nat)
    requires Inv(s, root) && i in s && i != 0 && s[i].nlinks == 1 && EntryAt(s, d, k) == i && EntryAt(s, x, y) == i
    ensures x == d && y == k
  {
    assert {(d, k), (x, y)} <= Refs(s, i);
    if (x, y) != (d, k) {
      assert |{(d, k), (x, y)}| == 2;
      SubsetSize({(d, k), (x, y)}, Refs(s, i));
      assert false;
    }
  }

  lemma SubsetSize(a: set<(nat, nat)>, b: set<(nat, nat)>)
    requires a <= b
    ensures |a| <= |b|
  {
    assert b == a + (b - a);
  }

  lemma UnlinkedCounted(s: Inodes, s': Inodes, root: nat, d: nat, k: nat, i: nat, gone: bool)
    requires Inv(s, root) && Unlinked(s, s', d, k, i, gone)
    ensures Counted(s')
  {
    forall j | j in s' ensures s'[j].nlinks == |Refs(s', j)| {
      assert j in s'.Keys && Shaped(s, j);
      if j == i {
        assert Refs(s', i) == Refs(s, i) - {(d, k)};
        assert (d, k) in Refs(s, i);
      } else {
        assert Refs(s', j) == Refs(s, j);
      }
    }
  }

  /** A new directory: its "." and "..", an entry for it in its parent, two links for itself and
      one more for the parent. */
  ghost predicate Made(s: Inodes, s': Inodes, d: nat, k: nat, i: nat) {
    && Populated(s, d) && k >= 2 && i != 0 && i !in s
    && s'.Keys == s.Keys + {i}
    && EntryAt(s, d, k) == 0
    && (forall x: nat, y: nat {:trigger EntryAt(s', x, y)} :: EntryAt(s', x, y) ==
          if x == d && y == k then i else if x == i then (if y == 0 then i else if y == 1 then d else 0) else
            EntryAt(s, x, y))
    && (forall j | j in s && j != d :: s'[j] == s[j])
    && s'[d].nlinks == s[d].nlinks + 1 && Shaped(s', d)
    && Shaped(s', i) && s'[i].entries != [] && s'[i].nlinks == 2
  }

  lemma MadeTree(s: Inodes, s': Inodes, root: nat, d: nat, k: nat, i: nat)
    requires Tree(s, root) && Made(s, s', d, k, i)
    ensures Tree(s', root)
  {
    MadePopulated(s, s', d, k, i);
    NoRefs(s, root, i);
    assert forall x: nat, y: nat {:trigger EntryAt(s, x, y)} :: EntryAt(s, x, y) != i by {
      forall x: nat, y: nat ensures EntryAt(s, x, y) != i { assert (x, y) !in Refs(s, i); }
    }
    forall x | x in s' ensures Shaped(s', x) {
      assert x in s.Keys + {i};
      if x in s { assert Shaped(s, x); }
    }
    forall x: nat, y: nat ensures LeadsBack(s', x, y) { assert LeadsBack(s, x, y); }
    forall x | Populated(s', x) && x != root ensures HasParent(s', x) {
      if x == i {
        assert EntryAt(s', EntryAt(s', i, 1), k) == i;
      } else {
        assert HasParent(s, x);
        var y: nat :| y >= 2 && EntryAt(s, EntryAt(s, x, 1), y) == x;
        assert EntryAt(s', EntryAt(s', x, 1), y) == x;
      }
    }
    forall x: nat, y: nat | EntryAt(s', x, y) != 0 ensures EntryAt(s', x, y) in s' {
      assert EntryAt(s', x, y) in s.Keys + {i};
    }
  }

  lemma MadePopulated(s: Inodes, s': Inodes, d: nat, k: nat, i: nat)
    requires Made(s, s', d, k, i)
    ensures forall x: nat :: Populated(s', x) <==> Populated(s, x) || x == i
  {
    forall x: nat ensures Populated(s', x) <==> Populated(s, x) || x == i {
      assert x in s' <==> x in s.Keys + {i};
      assert EntryAt(s', d, k) == i;
    }
  }

  lemma MadeCounted(s: Inodes, s': Inodes, root: nat, d: nat, k: nat, i: nat)
    requires Tree(s, root) && Counted(s) && Made(s, s', d, k, i)
    ensures Counted(s')
  {
    NoRefs(s, root, i);
    forall j | j in s' ensures s'[j].nlinks == |Refs(s', j)| {
      assert j in s.Keys + {i};
      assert Shaped(s', i) && Shaped(s', d);
      if j == i {
        assert Refs(s', i) == {(d, k), (i, 0)};
      } else if j == d {
        assert EntryAt(s, i, 1) == 0;
        assert Refs(s', d) == Refs(s, d) + {(i, 1)};
      } else {
        assert Shaped(s, j);
        assert Refs(s', j) == Refs(s, j);
      }
    }
  }

  /** empty_dir's condition: nothing but "." and "..". */
  ghost predicate Empty(s: Inodes, c: nat) {
    Populated(s, c) && forall y: nat {:trigger EntryAt(s, c, y)} | y >= 2 :: EntryAt(s, c, y) == 0
  }

  /** An entry that names an empty directory other than its own is that directory's one entry in
      its parent: never a "." or "..". */
  lemma EmptyIsChild(s: Inodes, root: nat, d: nat, k: nat, c: nat)
    requires Tree(s, root) && Populated(s, d) && EntryAt(s, d, k) == c && c != d && Empty(s, c)
    ensures k >= 2 && EntryAt(s, c, 1) == d && c != root
  {
    assert Shaped(s, d) && Shaped(s, c);
    assert d != root ==> HasParent(s, d);
    assert LeadsBack(s, d, k);
  }

  /** Such a directory has exactly two links, so rmdir's complaint about another number is never
      made. */
  lemma EmptyRefs(s: Inodes, root: nat, d: nat, k: nat, c: nat)
    requires Inv(s, root) && Populated(s, d) && EntryAt(s, d, k) == c && c != d && Empty(s, c)
    ensures Refs(s, c) == {(c, 0), (d, k)} && s[c].nlinks == 2
  {
    EmptyIsChild(s, root, d, k, c);
    assert Shaped(s, c);
    forall x: nat, y: nat | EntryAt(s, x, y) == c ensures (x == c && y == 0) || (x == d && y == k) {
      assert Shaped(s, x);
      if x != c {
        assert Populated(s, x);
        EmptyIsChild(s, root, x, y, c);
      }
    }
    assert EntryAt(s, c, 0) == c;
    assert forall p | p in Refs(s, c) :: EntryAt(s, p.0, p.1) == c;
  }

  /** rmdir: the directory c goes with its entries, the one for it in d is cleared, and d has one
      link less. */
  ghost predicate Removed(s: Inodes, s': Inodes, d: nat, k: nat, c: nat) {
    && Populated(s, d) && EntryAt(s, d, k) == c && c != d && Empty(s, c)
    && s'.Keys == s.Keys - {c}
    && (forall x: nat, y: nat {:trigger EntryAt(s', x, y)} ::
          EntryAt(s', x, y) == if x == c || (x == d && y == k) then 0 else EntryAt(s, x, y))
    && (forall j | j in s && j != d && j != c :: j in s' && s'[j] == s[j])
    && d in s' && s'[d].nlinks == s[d].nlinks - 1 && Shaped(s', d)
  }

  lemma RemovedPopulated(s: Inodes, s': Inodes, root: nat, d: nat, k: nat, c: nat)
    requires Tree(s, root) && Removed(s, s', d, k, c)
    ensures forall x: nat :: Populated(s', x) <==> Populated(s, x) && x != c
  {
    EmptyIsChild(s, root, d, k, c);
    forall x: nat ensures Populated(s', x) <==> Populated(s, x) && x != c {
      assert x in s' <==> x in s'.Keys;
      assert Shaped(s, d);
      assert EntryAt(s', d, 0) == EntryAt(s, d, 0);
    }
  }

  lemma RemovedTree(s: Inodes, s': Inodes, root: nat, d: nat, k: nat, c: nat)
    requires Inv(s, root) && Removed(s, s', d, k, c)
    ensures Tree(s', root)
  {
    EmptyIsChild(s, root, d, k, c);
    EmptyRefs(s, root, d, k, c);
    RemovedPopulated(s, s', root, d, k, c);
    forall x | x in s' ensures Shaped(s', x) {
      assert x in s'.Keys && Shaped(s, x);
    }
    forall x: nat, y: nat | EntryAt(s', x, y) != 0 ensures EntryAt(s', x, y) in s' && EntryAt(s', x, y) != c {
      assert EntryAt(s, x, y) in s;
      assert EntryAt(s, x, y) == c ==> (x, y) in Refs(s, c);
      assert EntryAt(s', x, y) in s'.Keys;
    }
    forall x: nat, y: nat ensures LeadsBack(s', x, y) { assert LeadsBack(s, x, y); }
    forall x | Populated(s', x) && x != root ensures HasParent(s', x) {
      assert HasParent(s, x) && Shaped(s, x);
      var y: nat :| y >= 2 && EntryAt(s, EntryAt(s, x, 1), y) == x;
      assert EntryAt(s', EntryAt(s', x, 1), y) == x;
    }
  }

  lemma RemovedCounted(s: Inodes, s': Inodes, root: nat, d: nat, k: nat, c: nat)
    requires Inv(s, root) && Removed(s, s', d, k, c)
    ensures Counted(s')
  {
    EmptyIsChild(s, root, d, k, c);
    forall j | j in s' ensures s'[j].nlinks == |Refs(s', j)| {
      assert j in s'.Keys && Shaped(s, j) && Shaped(s, c);
      if j == d {
        assert Refs(s', d) == Refs(s, d) - {(c, 1)};
        assert (c, 1) in Refs(s, d);
      } else {
        assert Refs(s', j) == Refs(s, j);
      }
    }
  }

  lemma Unnamed(s: Inodes, root: nat, i: nat)
    requires Inv(s, root) && i in s && s[i].nlinks == 0
    ensures (forall d: nat, k: nat {:trigger EntryAt(s, d, k)} :: EntryAt(s, d, k) != i) && s[i].entries == [] && i != 0
  {
    assert Shaped(s, i) && Refs(s, i) == {};
    forall d: nat, k: nat ensures EntryAt(s, d, k) != i { assert (d, k) !in Refs(s, i); }
    assert s[i].entries != [] ==> EntryAt(s, i, 0) == i;
  }

  /** Nothing names an inode that has no links. */
  lemma Forgotten(s: Inodes, root: nat, i: nat)
    requires Inv(s, root) && i in s && s[i].nlinks == 0
    ensures Inv(s - {i}, root) && forall d: nat, k: nat :: EntryAt(s, d, k) != i
  {
    Unnamed(s, root, i);
    ForgottenTree(s, s - {i}, root, i);
    ForgottenCounted(s, s - {i}, root, i);
  }

  ghost predicate Gone(s: Inodes, s': Inodes, i: nat) {
    && s' == s - {i} && i in s && s[i].entries == [] && i != 0
    && forall d: nat, k: nat {:trigger EntryAt(s', d, k)} :: EntryAt(s', d, k) == EntryAt(s, d, k) != i
  }

  lemma ForgottenTree(s: Inodes, s': Inodes, root: nat, i: nat)
    requires Tree(s, root) && Gone(s, s', i)
    ensures Tree(s', root)
  {
    assert forall x: nat :: Populated(s', x) <==> Populated(s, x);
    forall x | x in s' ensures Shaped(s', x) { assert Shaped(s, x); }
    forall x: nat, y: nat ensures LeadsBack(s', x, y) { assert LeadsBack(s, x, y); }
    forall x | Populated(s', x) && x != root ensures HasParent(s', x) {
      assert HasParent(s, x);
      var y: nat :| y >= 2 && EntryAt(s, EntryAt(s, x, 1), y) == x;
      assert EntryAt(s', EntryAt(s', x, 1), y) == x;
    }
  }

  lemma ForgottenCounted(s: Inodes, s': Inodes, root: nat, i: nat)
    requires Tree(s, root) && Counted(s) && Gone(s, s', i)
    ensures Counted(s')
  {
    forall j | j in s' ensures s'[j].nlinks == |Refs(s', j)| {
      assert Shaped(s, j);
      assert Refs(s', j) == Refs(s, j);
    }
  }
}
