/** Directories and link counts: what the name-space calls keep. */
module Directories {

  /** A directory entry; inode 0 means it is free. Names are 14 bytes, filled up with NULs. */
  datatype Entry = Entry(inode: nat, name: seq<nat>)

  datatype Inode = Inode(dir: bool, nlinks: nat, entries: seq<Entry>)

  function Min(a: nat, b: nat): nat {
    if a < b then a else b
  }

  /** A name as it is stored: cut off after 14 bytes. */
  function Pad(name: seq<nat>): (p: seq<nat>)
    ensures |p| == 14
  {
    seq(14, i requires 0 <= i < 14 => if i < |name| then name[i] else 0)
  }

  predicate Stored(name: seq<nat>) {
    |name| == 14 && forall i: nat, j: nat | i < j < 14 && name[i] == 0 :: name[j] == 0
  }

  function Dot(): seq<nat> { Pad([46]) }

  function DotDot(): seq<nat> { Pad([46, 46]) }

  /** match, for names that are not empty. */
  predicate Match(name: seq<nat>, de: Entry)
    requires |de.name| == 14 && 0 < |name| <= 14
  {
    de.inode != 0 && (|name| < 14 ==> de.name[|name|] == 0) && de.name[..|name|] == name
  }

  /** It compares whole names: the NUL it tests for is followed by NULs only. */
  lemma MatchExact(name: seq<nat>, de: Entry)
    requires Stored(de.name) && 0 < |name| <= 14
    ensures Match(name, de) <==> de.inode != 0 && de.name == Pad(name)
  {
    if Match(name, de) {
      forall i: nat | i < 14 ensures de.name[i] == Pad(name)[i] {
        if i < |name| { assert de.name[..|name|][i] == name[i]; }
      }
    }
    if de.name == Pad(name) { assert de.name[..|name|] == name; }
  }

  lemma PadStored(name: seq<nat>)
    requires 0 !in name
    ensures Stored(Pad(name))
  {
    forall i: nat, j: nat | i < j < 14 && Pad(name)[i] == 0 ensures Pad(name)[j] == 0 {
      if i < |name| { assert name[i] in name; }
    }
  }

  /** The inode that a directory gives for a name, 0 if none. */
  function Lookup(entries: seq<Entry>, name: seq<nat>): nat {
    if entries == [] then 0
    else if entries[0].inode != 0 && entries[0].name == name then entries[0].inode
    else Lookup(entries[1..], name)
  }

  ghost predicate DistinctNames(entries: seq<Entry>) {
    forall i: nat, j: nat | i < j < |entries| && entries[i].inode != 0 && entries[j].inode != 0 ::
      entries[i].name != entries[j].name
  }

  lemma {:induction false} LookupAt(entries: seq<Entry>, k: nat)
    requires DistinctNames(entries) && k < |entries| && entries[k].inode != 0
    ensures Lookup(entries, entries[k].name) == entries[k].inode
  {
    if k > 0 { LookupAt(entries[1..], k - 1); }
  }

  lemma {:induction false} LookupNone(entries: seq<Entry>, name: seq<nat>)
    ensures Lookup(entries, name) == 0 <==> forall k: nat | k < |entries| && entries[k].inode != 0 ::
      entries[k].name != name
  {
    if entries != [] {
      LookupNone(entries[1..], name);
      forall k: nat | 0 < k < |entries| ensures entries[k] == entries[1..][k - 1] {}
      if Lookup(entries, name) != 0 && !(entries[0].inode != 0 && entries[0].name == name) {
        var k: nat :| k < |entries[1..]| && entries[1..][k].inode != 0 && entries[1..][k].name == name;
        assert entries[k + 1].name == name;
      }
    }
  }

  /** entries' is entries with position k, free or just behind the last, holding e. */
  predicate Placed(entries: seq<Entry>, entries': seq<Entry>, k: nat, e: Entry) {
    k <= |entries| && (k < |entries| ==> entries[k].inode == 0) &&
        entries' == entries[..k] + [e] + entries[Min(k + 1, |entries|)..]
  }

  /** A directory is a finite map from names: what add_entry and its caller put in ... */
  lemma PlacedLookup(entries: seq<Entry>, entries': seq<Entry>, k: nat, e: Entry, name: seq<nat>)
    requires DistinctNames(entries) && Placed(entries, entries', k, e) && e.inode != 0 && Lookup(entries, e.name) == 0
    ensures DistinctNames(entries')
    ensures Lookup(entries', name) == if name == e.name then e.inode else Lookup(entries, name)
  {
    LookupNone(entries, e.name);
    PlacedAt(entries, entries', k, e);
    forall i: nat, j: nat | i < j < |entries'| && entries'[i].inode != 0 &&
        entries'[j].inode != 0 ensures entries'[i].name != entries'[j].name {
      assert i != k ==> entries'[i] == entries[i];
      assert j != k ==> entries'[j] == entries[j];
    }
    if name == e.name {
      LookupAt(entries', k);
    } else {
      SameLookup(entries, entries', k, name);
    }
  }

  lemma PlacedAt(entries: seq<Entry>, entries': seq<Entry>, k: nat, e: Entry)
    requires Placed(entries, entries', k, e)
    ensures |entries'| == if k < |entries| then |entries| else |entries| + 1
    ensures entries'[k] == e && forall i: nat | i < |entries'| && i != k :: i < |entries| && entries'[i] == entries[i]
  {
  }

  /** Two directories that differ in one place only agree on names that are not there. */
  lemma SameLookup(a: seq<Entry>, b: seq<Entry>, k: nat, name: seq<nat>)
    requires DistinctNames(a) && DistinctNames(b) && |a| <= |b| <= |a| + 1 && k < |b|
    requires forall i: nat | i < |b| && i != k :: i < |a| && a[i] == b[i]
    requires (k < |a| && a[k].inode != 0 ==> a[k].name != name) && (b[k].inode != 0 ==> b[k].name != name)
    ensures Lookup(a, name) == Lookup(b, name)
  {
    LookupNone(a, name);
    LookupNone(b, name);
    if Lookup(a, name) != 0 {
      var i: nat :| i < |a| && a[i].inode != 0 && a[i].name == name;
      LookupAt(a, i);
      assert i < |b| && i != k;
      LookupAt(b, i);
    }
  }

  /** ... is found under its name, and what a caller takes out is not, all other names staying
      as they are. */
  lemma ClearedLookup(entries: seq<Entry>, k: nat, name: seq<nat>)
    requires DistinctNames(entries) && k < |entries| && entries[k].inode != 0
    ensures var entries' := entries[k := entries[k].(inode := 0)];
            DistinctNames(entries') && Lookup(entries', name) == if name == entries[k].name then 0 else
              Lookup(entries, name)
  {
    var entries' := entries[k := entries[k].(inode := 0)];
    if name == entries[k].name {
      LookupNone(entries', name);
    } else {
      SameLookup(entries, entries', k, name);
    }
  }
}
