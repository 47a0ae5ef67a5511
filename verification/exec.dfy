/** How exec hands the argument and environment strings to the new program: copied downwards,
    page by page, into up to 32 fresh pages, which are then mapped below the library, and with
    tables of pointers to them built under that. */
module ExecArguments {

  const PAGES: nat := 32
  const AREA: nat := 131072             // MAX_ARG_PAGES*PAGE_SIZE
  const TASK_SIZE: nat := 0x4000000
  const LIBRARY_SIZE: nat := 0x400000
  const WORD: int := 0x1_0000_0000

  /** A C string, without its NUL. */
  type CString = seq<nat>

  predicate Clean(strings: seq<CString>) {
    forall i: nat | i < |strings| :: 0 !in strings[i]
  }

  /** The first n strings, each with its NUL, one after the other. */
  function Joined(strings: seq<CString>, n: nat): seq<nat>
    requires n <= |strings|
  {
    if n == 0 then [] else Joined(strings, n - 1) + (strings[n - 1] + [0])
  }

  function Join(strings: seq<CString>): seq<nat> {
    Joined(strings, |strings|)
  }

  lemma {:induction false} JoinedSame(a: seq<CString>, b: seq<CString>, n: nat)
    requires n <= |a| && n <= |b| && forall i: nat | i < n :: a[i] == b[i]
    ensures Joined(a, n) == Joined(b, n)
  {
    if n > 0 { JoinedSame(a, b, n - 1); }
  }

  lemma {:induction false} JoinedSplit(a: seq<CString>, b: seq<CString>, c: seq<CString>, n: nat)
    requires c == a + b && n <= |b|
    ensures Joined(c, |a| + n) == Join(a) + Joined(b, n)
  {
    if n == 0 {
      JoinedSame(c, a, |a|);
    } else {
      JoinedSplit(a, b, c, n - 1);
      assert c[|a| + n - 1] == b[n - 1];
    }
  }

  lemma JoinSplit(a: seq<CString>, b: seq<CString>)
    ensures Join(a + b) == Join(a) + Join(b)
  {
    JoinedSplit(a, b, a + b, |b|);
  }

  /** Where in the joined strings the i-th begins. */
  function Start(strings: seq<CString>, i: nat): nat
    requires i <= |strings|
  {
    |Joined(strings, i)|
  }

  lemma {:induction false} JoinedPrefix(strings: seq<CString>, i: nat, n: nat)
    requires i <= n <= |strings|
    ensures Joined(strings, i) <= Joined(strings, n)
  {
    if i < n { JoinedPrefix(strings, i, n - 1); }
  }

  lemma StringPlace(strings: seq<CString>, i: nat)
    requires i < |strings|
    ensures Start(strings, i + 1) == Start(strings, i) + |strings[i]| + 1 <= |Join(strings)|
    ensures Join(strings)[Start(strings, i)..Start(strings, i + 1)] == strings[i] + [0]
  {
    JoinedPrefix(strings, i + 1, |strings|);
    assert Joined(strings, i + 1) == Joined(strings, i) + (strings[i] + [0]);
  }

  /** The test in copy_strings for strings that do not fit, on unsigned numbers. */
  predicate TooLong(p: nat, len: nat) {
    (p - len) % WORD < 0
  }

  /** It is never true, and so right exactly about strings that fit. */
  lemma TestExactIff(p: nat, len: nat)
    ensures (TooLong(p, len) <==> p < len) <==> len <= p
  {
  }

  /** Where the k-th byte goes: p is an unsigned number that is counted down before each. */
  function Down(p0: nat, k: nat): nat {
    (p0 - 1 - k) % WORD
  }

  /** All n bytes go to entries that page[] has exactly if they fit below p0. */
  lemma InsideIff(p0: nat, n: nat)
    requires p0 <= AREA
    ensures (forall k: nat | k < n :: Down(p0, k) / 4096 < PAGES) <==> n <= p0
    ensures Down(p0, p0) / 4096 == 1048575
  {
    assert Down(p0, p0) == WORD - 1;
    forall k: nat | k < n && n <= p0 ensures Down(p0, k) / 4096 < PAGES {
      assert Down(p0, k) == p0 - 1 - k;
    }
  }

  /** One argument of 128 kB is enough: copy_strings does not refuse it, and after 131068 bytes
      the next goes to entry 1048575 of 32. */
  lemma Overlong()
    ensures var strings: seq<CString> := [seq(AREA, _ => 97)];
            && Clean(strings) && |Join(strings)| == AREA + 1 && !TooLong(AREA - 4, |Join(strings)|)
            && Down(AREA - 4, AREA - 4) / 4096 == 1048575
  {
    var long: CString := seq(AREA, _ => 97);
    var strings := [long];
    assert Joined(strings, 1) == Joined(strings, 0) + (strings[0] + [0]);
    InsideIff(AREA - 4, AREA + 1);
  }

  /** What copy_strings comes to: its result, 0 for no memory, or a byte that would go to an entry
      page[] does not have. What the program does from there on is not defined, and the model
      stops. */
  datatype Copying = Copied(p: nat) | NoMemory | Outside

  /** How many of the first n pages are still to be got. */
  function Missing(page: seq<seq<nat>>, n: nat): nat
    requires n <= |page|
  {
    if n == 0 then 0 else Missing(page, n - 1) + if page[n - 1] == [] then 1 else 0
  }

  function Need(page: seq<seq<nat>>): nat {
    Missing(page, |page|)
  }

  lemma {:induction false} MissingAfter(page: seq<seq<nat>>, page': seq<seq<nat>>, pag: nat, n: nat)
    requires n <= |page| == |page'| && pag < |page|
    requires forall i: nat | i < |page| && i != pag :: (page'[i] == [] <==> page[i] == [])
    ensures var gone := if pag < n && page[pag] == [] && page'[pag] != [] then 1 else 0;
            page[pag] == [] || page'[pag] != [] ==> Missing(page', n) == Missing(page, n) - gone
    ensures pag < n && page[pag] == [] ==> Missing(page, n) > 0
  {
    if n > 0 { MissingAfter(page, page', pag, n - 1); }
  }

  lemma {:induction false} MissingAll(page: seq<seq<nat>>, n: nat)
    requires n <= |page| && forall i: nat | i < |page| :: page[i] == []
    ensures Missing(page, n) == n
  {
    if n > 0 { MissingAll(page, n - 1); }
  }

  /** Bytes have been copied from the top down to p: the pages from that of p on are there. */
  predicate Filled(page: seq<seq<nat>>, p: nat) {
    && |page| == PAGES && p <= AREA - 4
    && forall i: nat | i < PAGES :: page[i] != [] <==> p < AREA - 4 && p / 4096 <= i
  }

  lemma {:induction false} FilledMissing(page: seq<seq<nat>>, p: nat, n: nat)
    requires Filled(page, p) && n <= PAGES
    ensures Missing(page, n) == if p < AREA - 4 && p / 4096 <= n then p / 4096 else n
  {
    if n > 0 { FilledMissing(page, p, n - 1); }
  }

  /** The number of pages that n bytes take. */
  function PagesFor(n: nat): nat
    requires n <= AREA - 4
  {
    if n == 0 then 0 else PAGES - (AREA - 4 - n) / 4096
  }

  /** Where n bytes copied down from p0 end, or the bottom. */
  function Below(p0: nat, n: nat): nat {
    if n <= p0 then p0 - n else 0
  }

  /** There are too few frames for n bytes, and for more. */
  ghost predicate TooFew(frames: int, n: nat) {
    frames < PAGES && forall m: nat | n <= m < AREA - 4 :: frames < PagesFor(m)
  }

  lemma OutOfPages(n: nat, frames: int)
    requires 0 < n && frames - PAGES + Below(AREA - 4, n) / 4096 < 0
    ensures TooFew(frames, n)
  {
    forall m: nat | n <= m < AREA - 4 ensures frames < PagesFor(m) {
      assert (AREA - 4 - m) / 4096 <= (AREA - 4 - n) / 4096;
    }
  }

  /** One byte more. */
  lemma FilledDown(page: seq<seq<nat>>, page': seq<seq<nat>>, p0: nat)
    requires Filled(page, p0) && 0 < p0 && |page'| == PAGES && page'[(p0 - 1) / 4096] != []
    requires forall i: nat | i < PAGES && i != (p0 - 1) / 4096 :: page'[i] == [] <==> page[i] == []
    ensures Filled(page', p0 - 1)
  {
    forall i: nat | i < PAGES ensures page'[i] != [] <==> (p0 - 1) / 4096 <= i {
      if i != (p0 - 1) / 4096 { assert page'[i] == [] <==> page[i] == []; }
    }
  }

  function Byte(page: seq<seq<nat>>, a: nat): nat {
    if a / 4096 < |page| && a % 4096 < |page[a / 4096]| then page[a / 4096][a % 4096] else 0
  }

  predicate Holds(page: seq<seq<nat>>, q: nat, bytes: seq<nat>) {
    forall a: nat | q <= a < q + |bytes| :: Byte(page, a) == bytes[a - q]
  }

  predicate Pages(page: seq<seq<nat>>) {
    |page| == PAGES && forall i: nat | i < |page| :: |page[i]| == 0 || |page[i]| == 4096
  }

  function ZeroPage(): (z: seq<nat>)
    ensures |z| == 4096 && forall i: nat | i < 4096 :: z[i] == 0
  {
    seq(4096, _ => 0)
  }

  lemma NewPageBytes(page: seq<seq<nat>>, i: nat)
    requires Pages(page) && i < PAGES && page[i] == []
    ensures Pages(page[i := ZeroPage()])
    ensures forall a: nat :: Byte(page[i := ZeroPage()], a) == Byte(page, a)
  {
  }

  function Store(page: seq<seq<nat>>, pag: nat, offset: nat, b: nat): seq<seq<nat>>
    requires pag < |page| && offset < |page[pag]|
  {
    var bytes: seq<nat> := page[pag][offset := b];
    page[pag := bytes]
  }

  lemma StoreByte(page: seq<seq<nat>>, p: nat, b: nat)
    requires Pages(page) && p < AREA && page[p / 4096] != []
    ensures var page' := Store(page, p / 4096, p % 4096, b);
            Pages(page') && forall a: nat :: Byte(page', a) == if a == p then b else Byte(page, a)
  {
    var page' := Store(page, p / 4096, p % 4096, b);
    forall a: nat | a != p ensures Byte(page', a) == Byte(page, a) {
      assert a / 4096 != p / 4096 || a % 4096 != p % 4096;
    }
  }

  lemma FilledStore(page: seq<seq<nat>>, p: nat, pag: nat, offset: nat, b: nat)
    requires Filled(page, p) && pag < |page| && offset < |page[pag]|
    ensures Filled(Store(page, pag, offset, b), p)
  {
  }

  class ArgPages {
    var page: seq<seq<nat>>     // [] where there is no page yet
    var frames: nat             // pages that get_free_page can still give

    constructor (frames: nat)
      ensures page == seq(PAGES, _ => []) && this.frames == frames && Need(page) == PAGES && Filled(page, AREA - 4)
    {
      page := seq(PAGES, _ => []);
      this.frames := frames;
      new;
      MissingAll(page, |page|);
    }

    /** Where the next byte down goes: the page under the cursor, or a new one at its top. */
    ghost predicate Cursor(p: nat, offset: int, pag: nat)
      reads this
    {
      Pages(page) && (offset == 0 || (offset == p % 4096 && pag == p / 4096 < PAGES && page[pag] != []))
    }

    /** Pages got so far, counted from a fixed number. */
    ghost function Spare(): int
      reads this
    {
      frames - Need(page)
    }

    /** What copying n bytes down from p0 leaves: a page for each that was copied, too few pages for
        all of them, or all 32 pages. */
    ghost predicate Kept(p0: nat, n: nat, r: Copying)
      reads this
    {
      match r
      case Copied(p) => Filled(page, p)
      case NoMemory => 0 < n && Spare() + Below(p0, n) / 4096 < 0
      case Outside => Filled(page, 0)
    }

    /** A page that is there has come out of the frames. */
    lemma Supply(r: Copying)
      ensures r.Outside? && Filled(page, 0) ==> Spare() >= 0
      ensures r.Copied? && Filled(page, r.p) ==> Spare() + (if r.p < AREA - 4 then r.p / 4096 else PAGES) >= 0
    {
      if r.Outside? && Filled(page, 0) { FilledMissing(page, 0, PAGES); }
      if r.Copied? && Filled(page, r.p) { FilledMissing(page, r.p, PAGES); }
    }

    /** A page under the cursor. */
    method GetPage(pag: nat) returns (ok: bool)
      requires Pages(page) && pag < PAGES
      modifies this
      ensures Pages(page) && Spare() == old(Spare()) && forall a: nat :: Byte(page, a) == old(Byte(page, a))
      ensures forall i: nat | i < PAGES && i != pag :: page[i] == old(page)[i]
      ensures if ok then page[pag] != [] else page == old(page) && frames == 0 && page[pag] == [] && Spare() < 0
    {
      MissingAfter(page, page, pag, |page|);
      if page[pag] == [] {
        if frames == 0 { return false; }
        frames := frames - 1;
        NewPageBytes(page, pag);
        MissingAfter(page, page[pag := ZeroPage()], pag, |page|);
        page := page[pag := ZeroPage()];
      }
      ok := true;
    }

    /** The place of the next byte down, with a page there. */
    method NextPlace(p0: nat, offset0: int, pag0: nat) returns (r: Copying, offset: int, pag: nat)
      requires Cursor(p0, offset0, pag0) && p0 <= AREA
      modifies this
      ensures Pages(page) && Spare() == old(Spare()) && forall a: nat :: Byte(page, a) == old(Byte(page, a))
      ensures r.Copied? ==> p0 > 0 && r.p == p0 - 1 && offset == r.p % 4096 && pag == r.p / 4096 && page[pag] != []
      ensures r.NoMemory? ==> Spare() < 0
      ensures r.Outside? ==> p0 == 0
      ensures old(Filled(page, p0)) ==> Kept(p0, 1, r)
    {
      var p: nat := (p0 - 1) % WORD;
      offset, pag := offset0 - 1, pag0;
      if offset < 0 {
        offset := p % 4096;
        pag := p / 4096;
        if pag >= PAGES { return Outside, offset, pag; }
        if Filled(page, p0) { FilledMissing(page, p0, PAGES); }
        var ok := GetPage(pag);
        if !ok { return NoMemory, offset, pag; }
      }
      if old(Filled(page, p0)) { FilledDown(old(page), page, p0); }
      r := Copied(p);
    }

    /** One turn of the innermost loop. */
    method CopyByte(p0: nat, offset0: int, pag0: nat, b: nat) returns (r: Copying, offset: int, pag: nat)
      requires Cursor(p0, offset0, pag0) && p0 <= AREA
      modifies this
      ensures Pages(page) && Spare() == old(Spare())
      ensures forall a: nat :: Byte(page, a) == if r.Copied? && a == r.p then b else old(Byte(page, a))
      ensures r.Copied? ==> p0 > 0 && r.p == p0 - 1 && Cursor(r.p, offset, pag)
      ensures r.NoMemory? ==> Spare() < 0
      ensures r.Outside? ==> p0 == 0
      ensures old(Filled(page, p0)) ==> Kept(p0, 1, r)
    {
      r, offset, pag := NextPlace(p0, offset0, pag0);
      if !r.Copied? { return; }
      StoreByte(page, r.p, b);
      if Filled(page, r.p) { FilledStore(page, r.p, pag, offset, b); }
      MissingAfter(page, Store(page, pag, offset, b), pag, |page|);
      page := Store(page, pag, offset, b);
    }

    method CopyString(tmp: seq<nat>, p0: nat, offset0: int, pag0: nat) returns (r: Copying, offset: int, pag: nat)
      requires Cursor(p0, offset0, pag0) && p0 <= AREA
      modifies this
      ensures Pages(page) && Spare() == old(Spare())
      ensures forall a: nat | p0 <= a || (r.Copied? && a < r.p) :: Byte(page, a) == old(Byte(page, a))
      ensures r.Copied? ==> |tmp| <= p0 && r.p == p0 - |tmp| && Holds(page, r.p, tmp) && Cursor(r.p, offset, pag)
      ensures r.NoMemory? ==> Spare() < 0
      ensures r.Outside? ==> p0 < |tmp|
      ensures old(Filled(page, p0)) ==> Kept(p0, |tmp|, r)
    {
      r, offset, pag := Copied(p0), offset0, pag0;
      var len, p := |tmp|, p0;
      while len > 0
        invariant 0 <= len <= |tmp| && r == Copied(p) && p == p0 - |tmp| + len && Cursor(p, offset, pag)
        invariant forall k: nat | len <= k < |tmp| :: Byte(page, p0 - |tmp| + k) == tmp[k]
        invariant forall a: nat | a < p || p0 <= a :: Byte(page, a) == old(Byte(page, a))
        invariant Spare() == old(Spare()) && (old(Filled(page, p0)) ==> Filled(page, p))
      {
        len := len - 1;
        r, offset, pag := CopyByte(p, offset, pag, tmp[len]);
        if !r.Copied? { return; }
        p := r.p;
      }
    }

    /** copy_strings, for any strings. Its test for those that do not fit (TooLong) is never true:
        they are copied until the room below p0 is used up. */
    method CopyStrings(strings: seq<CString>, p0: nat) returns (r: Copying)
      requires Pages(page) && p0 <= AREA
      modifies this
      ensures Pages(page) && Spare() == old(Spare())
      ensures r.Copied? && p0 == 0 ==> r.p == 0 && page == old(page)
      ensures r.Copied? && p0 > 0 ==>
        |Join(strings)| <= p0 && r.p == p0 - |Join(strings)| && Holds(page, r.p, Join(strings))
      ensures r.NoMemory? ==> Spare() < 0
      ensures r.Outside? ==> 0 < p0 < |Join(strings)|
      ensures old(Filled(page, p0)) ==> Kept(p0, |Join(strings)|, r)
      ensures forall a: nat | p0 <= a || (r.Copied? && a < r.p) :: Byte(page, a) == old(Byte(page, a))
    {
      if p0 == 0 { return Copied(0); }
      r := Copied(p0);
      var offset, pag, argc, p := 0, 0, |strings|, p0;
      assert strings[..argc] == strings && Join(strings[argc..]) == [];
      while argc > 0
        invariant 0 <= argc <= |strings| && r == Copied(p) && p == p0 - |Join(strings[argc..])|
        invariant Cursor(p, offset, pag)
        invariant Holds(page, p, Join(strings[argc..]))
        invariant forall a: nat | a < p || p0 <= a :: Byte(page, a) == old(Byte(page, a))
        invariant Spare() == old(Spare()) && (old(Filled(page, p0)) ==> Filled(page, p))
      {
        argc := argc - 1;
        var tmp := strings[argc] + [0];
        JoinFrom(strings, argc);
        ghost var rest, page0 := Join(strings[argc + 1..]), page;
        r, offset, pag := CopyString(tmp, p, offset, pag);
        if !r.Copied? { return; }
        p := r.p;
        HoldsBoth(page0, page, p, tmp, rest);
      }
      assert strings[0..] == strings;
    }
  }

  lemma JoinFrom(strings: seq<CString>, i: nat)
    requires i < |strings|
    ensures Join(strings[i..]) == strings[i] + [0] + Join(strings[i + 1..])
    ensures |Join(strings[i..])| <= |Join(strings)|
  {
    var one := [strings[i]];
    assert Joined(one, 1) == Joined(one, 0) + (one[0] + [0]);
    assert strings[i..] == one + strings[i + 1..];
    JoinSplit(one, strings[i + 1..]);
    assert strings == strings[..i] + strings[i..];
    JoinSplit(strings[..i], strings[i..]);
  }

  lemma HoldsBoth(page: seq<seq<nat>>, page': seq<seq<nat>>, p: nat, a: seq<nat>, b: seq<nat>)
    requires Holds(page', p, a) && Holds(page, p + |a|, b)
    requires forall x: nat | p + |a| <= x :: Byte(page', x) == Byte(page, x)
    ensures Holds(page', p, a + b)
  {
  }

  /** A byte of the new program's memory; pages not there yet are zero when touched. */
  function Cell(mem: map<nat, nat>, a: nat): nat {
    if a in mem then mem[a] else 0
  }

  predicate Matches(mem: map<nat, nat>, p: nat, bytes: seq<nat>, a: nat) {
    p <= a < p + |bytes| && Cell(mem, a) == bytes[a - p]
  }

  predicate Lies(mem: map<nat, nat>, p: nat, bytes: seq<nat>) {
    forall a: nat {:trigger Matches(mem, p, bytes, a)} | p <= a < p + |bytes| :: Matches(mem, p, bytes, a)
  }

  predicate StringAt(mem: map<nat, nat>, a: nat, s: CString) {
    Lies(mem, a, s + [0])
  }

  function Encode(v: nat, n: nat): (bytes: seq<nat>)
    ensures |bytes| == n
  {
    if n == 0 then [] else [v % 256] + Encode(v / 256, n - 1)
  }

  /** put_fs_long, lowest byte first. */
  function PutLong(mem: map<nat, nat>, a: nat, v: nat): map<nat, nat> {
    var bytes := Encode(v, 4);
    mem[a := bytes[0]][a + 1 := bytes[1]][a + 2 := bytes[2]][a + 3 := bytes[3]]
  }

  /** get_fs_long. */
  function GetLong(mem: map<nat, nat>, a: nat): nat {
    Cell(mem, a) + 256 * Cell(mem, a + 1) + 65536 * Cell(mem, a + 2) + 16777216 * Cell(mem, a + 3)
  }

  predicate LongAt(mem: map<nat, nat>, a: nat, v: nat) {
    Lies(mem, a, Encode(v, 4))
  }

  lemma PutLongCells(mem: map<nat, nat>, a: nat, v: nat)
    ensures LongAt(PutLong(mem, a, v), a, v)
    ensures forall x: nat | x < a || a + 4 <= x :: Cell(PutLong(mem, a, v), x) == Cell(mem, x)
  {
  }

  /** Lowest byte first. */
  lemma LongBytes(mem: map<nat, nat>, a: nat, v: nat)
    requires LongAt(mem, a, v)
    ensures Cell(mem, a) == v % 256 && Cell(mem, a + 1) == v / 256 % 256
    ensures Cell(mem, a + 2) == v / 256 / 256 % 256 && Cell(mem, a + 3) == v / 256 / 256 / 256 % 256
  {
    var v1 := v / 256;
    var v2 := v1 / 256;
    var v3 := v2 / 256;
    assert Encode(v, 4) == [v % 256] + ([v1 % 256] + ([v2 % 256] + [v3 % 256])) by {
      assert Encode(v3, 1) == [v3 % 256] + [];
      assert Encode(v2, 2) == [v2 % 256] + Encode(v3, 1);
      assert Encode(v1, 3) == [v1 % 256] + Encode(v2, 2);
    }
    assert Matches(mem, a, Encode(v, 4), a) && Matches(mem, a, Encode(v, 4), a + 1);
    assert Matches(mem, a, Encode(v, 4), a + 2) && Matches(mem, a, Encode(v, 4), a + 3);
  }

  lemma LongIs(mem: map<nat, nat>, a: nat, v: nat)
    requires LongAt(mem, a, v) && v < WORD
    ensures GetLong(mem, a) == v
  {
    LongBytes(mem, a, v);
  }

  lemma LongKept(mem: map<nat, nat>, mem': map<nat, nat>, a: nat, v: nat)
    requires LongAt(mem, a, v) && forall x: nat | a <= x < a + 4 :: Cell(mem', x) == Cell(mem, x)
    ensures LongAt(mem', a, v)
  {
    forall x: nat | a <= x < a + 4 ensures Matches(mem', a, Encode(v, 4), x)
    {
      assert Matches(mem, a, Encode(v, 4), x);
    }
  }

  /** The i-th word of a table. */
  function Slot(table: nat, i: nat): nat {
    table + 4 * i
  }

  /** A table of pointers to these strings, with a null pointer behind. */
  predicate TableAt(mem: map<nat, nat>, table: nat, strings: seq<CString>) {
    && (forall i: nat | i < |strings| :: StringAt(mem, GetLong(mem, Slot(table, i)), strings[i]))
    && GetLong(mem, Slot(table, |strings|)) == 0
  }

  /** What a program finds on its stack. */
  predicate StackAt(mem: map<nat, nat>, sp: nat, args: seq<CString>, envs: seq<CString>) {
    && GetLong(mem, sp) == |args|
    && TableAt(mem, GetLong(mem, sp + 4), args)
    && TableAt(mem, GetLong(mem, sp + 8), envs)
  }

  /** That is: argc on top, then the addresses of argv and envp, each a table of words that point to
      the strings' bytes, NULs included, and end in a null word. */
  lemma StackIs(mem: map<nat, nat>, sp: nat, args: seq<CString>, envs: seq<CString>)
    requires StackAt(mem, sp, args, envs)
    ensures GetLong(mem, sp) == |args|
    ensures forall i: nat, j: nat | i < |args| && j <= |args[i]| ::
      Cell(mem, GetLong(mem, GetLong(mem, sp + 4) + 4 * i) + j) == (args[i] + [0])[j]
    ensures GetLong(mem, GetLong(mem, sp + 4) + 4 * |args|) == 0
    ensures forall i: nat, j: nat | i < |envs| && j <= |envs[i]| ::
      Cell(mem, GetLong(mem, GetLong(mem, sp + 8) + 4 * i) + j) == (envs[i] + [0])[j]
    ensures GetLong(mem, GetLong(mem, sp + 8) + 4 * |envs|) == 0
  {
    TableIs(mem, GetLong(mem, sp + 4), args);
    TableIs(mem, GetLong(mem, sp + 8), envs);
  }

  lemma TableIs(mem: map<nat, nat>, table: nat, strings: seq<CString>)
    requires TableAt(mem, table, strings)
    ensures forall i: nat, j: nat | i < |strings| && j <= |strings[i]| ::
      Cell(mem, GetLong(mem, table + 4 * i) + j) == (strings[i] + [0])[j]
    ensures GetLong(mem, table + 4 * |strings|) == 0
  {
    forall i: nat, j: nat | i < |strings| && j <= |strings[i]|
      ensures Cell(mem, GetLong(mem, table + 4 * i) + j) == (strings[i] + [0])[j]
    {
      var a, s := GetLong(mem, Slot(table, i)), strings[i];
      assert StringAt(mem, a, s);
      assert Matches(mem, a, s + [0], a + j);
    }
  }

  /** Entries i of the table point to the strings that lie one after the other from p on. */
  predicate PointsAlong(mem: map<nat, nat>, table: nat, n: nat, p: nat, strings: seq<CString>)
    requires n <= |strings|
  {
    forall i: nat | i < n :: LongAt(mem, Slot(table, i), p + Start(strings, i))
  }

  lemma PointsAlongTable(mem: map<nat, nat>, table: nat, n: nat, p: nat, strings: seq<CString>)
    requires n <= |strings| && PointsAlong(mem, table, n, p, strings) && LongAt(mem, Slot(table, n), 0)
    requires Lies(mem, p, Join(strings)) && p + |Join(strings)| < WORD
    ensures TableAt(mem, table, strings[..n])
  {
    LongIs(mem, Slot(table, n), 0);
    forall i: nat | i < n ensures StringAt(mem, GetLong(mem, Slot(table, i)), strings[i]) {
      StringPlace(strings, i);
      StringHere(mem, p, strings, i);
      LongIs(mem, Slot(table, i), p + Start(strings, i));
    }
  }

  lemma StringHere(mem: map<nat, nat>, p: nat, strings: seq<CString>, i: nat)
    requires Lies(mem, p, Join(strings)) && i < |strings|
    ensures StringAt(mem, p + Start(strings, i), strings[i])
  {
    StringPlace(strings, i);
    StringPart(mem, p, Join(strings), Start(strings, i), Start(strings, i + 1), strings[i]);
  }

  lemma StringPart(mem: map<nat, nat>, p: nat, bytes: seq<nat>, i: nat, j: nat, s: CString)
    requires Lies(mem, p, bytes) && i <= j <= |bytes| && bytes[i..j] == s + [0]
    ensures StringAt(mem, p + i, s)
  {
    LiesPart(mem, p, bytes, i, j, s + [0]);
  }

  lemma LiesPart(mem: map<nat, nat>, p: nat, bytes: seq<nat>, i: nat, j: nat, part: seq<nat>)
    requires Lies(mem, p, bytes) && i <= j <= |bytes| && bytes[i..j] == part
    ensures Lies(mem, p + i, part)
  {
    var start := p + i;
    forall a: nat | start <= a < start + |part| ensures Matches(mem, start, part, a) {
      assert Matches(mem, p, bytes, a);
      assert part[a - start] == bytes[a - p];
    }
  }

  lemma StringEnds(mem: map<nat, nat>, p: nat, s: CString, q: nat)
    requires StringAt(mem, p, s) && 0 !in s && p <= q <= p + |s|
    ensures Cell(mem, q) == 0 <==> q == p + |s|
  {
    assert Matches(mem, p, s + [0], q);
  }

  lemma PointsAlongKept(mem: map<nat, nat>, mem': map<nat, nat>, table: nat, n: nat, p: nat, strings: seq<CString>)
    requires n <= |strings| && PointsAlong(mem, table, n, p, strings)
    requires forall x: nat | table <= x < Slot(table, n) :: Cell(mem', x) == Cell(mem, x)
    ensures PointsAlong(mem', table, n, p, strings)
  {
    forall i: nat | i < n ensures LongAt(mem', Slot(table, i), p + Start(strings, i)) {
      LongKept(mem, mem', Slot(table, i), p + Start(strings, i));
    }
  }

  lemma PutEntry(mem: map<nat, nat>, table: nat, i: nat, p: nat, p0: nat, strings: seq<CString>)
    requires i < |strings| && PointsAlong(mem, table, i, p0, strings) && Lies(mem, p0, Join(strings))
    requires Slot(table, i + 1) <= p0 && p == p0 + Start(strings, i)
    ensures var mem' := PutLong(mem, Slot(table, i), p);
            PointsAlong(mem', table, i + 1, p0, strings) && Lies(mem', p0, Join(strings))
    ensures Start(strings, i + 1) == Start(strings, i) + |strings[i]| + 1 <= |Join(strings)|
  {
    var mem' := PutLong(mem, Slot(table, i), p);
    StringPlace(strings, i);
    PutLongCells(mem, Slot(table, i), p);
    PointsAlongKept(mem, mem', table, i, p0, strings);
    LiesKept(mem, mem', p0, Join(strings));
  }

  class Program {
    var mem: map<nat, nat>

    constructor ()
      ensures mem == map[]
    {
      mem := map[];
    }

    /** One of create_tables' two loops: pointers to `count` strings, and a null one. */
    method FillTable(table: nat, count: nat, p0: nat, ghost strings: seq<CString>) returns (p: nat)
      requires count <= |strings| && Clean(strings) && Lies(mem, p0, Join(strings)) && Slot(table, count + 1) <= p0
      modifies this
      ensures PointsAlong(mem, table, count, p0, strings) && LongAt(mem, Slot(table, count), 0)
      ensures p == p0 + Start(strings, count)
      ensures forall x: nat | x < table || Slot(table, count + 1) <= x :: Cell(mem, x) == old(Cell(mem, x))
    {
      p := p0;
      var i := 0;
      while i < count
        invariant 0 <= i <= count && p == p0 + Start(strings, i)
        invariant PointsAlong(mem, table, i, p0, strings) && Lies(mem, p0, Join(strings))
        invariant forall x: nat | x < table || Slot(table, i) <= x :: Cell(mem, x) == old(Cell(mem, x))
      {
        PutEntry(mem, table, i, p, p0, strings);
        PutLongCells(mem, Slot(table, i), p);
        mem := PutLong(mem, Slot(table, i), p);
        StringHere(mem, p0, strings, i);
        p := SkipString(p, strings[i]);
        i := i + 1;
      }
      PutLongCells(mem, Slot(table, count), 0);
      PointsAlongKept(mem, PutLong(mem, Slot(table, count), 0), table, count, p0, strings);
      mem := PutLong(mem, Slot(table, count), 0);
    }

    /** Past the NUL of the string at p. */
    method SkipString(p: nat, ghost s: CString) returns (q: nat)
      requires StringAt(mem, p, s) && 0 !in s
      ensures q == p + |s| + 1
    {
      q := p;
      StringEnds(mem, p, s, q);
      while Cell(mem, q) != 0
        invariant p <= q <= p + |s| && (Cell(mem, q) == 0 <==> q == p + |s|)
        decreases p + |s| - q
      {
        q := q + 1;
        StringEnds(mem, p, s, q);
      }
      q := q + 1;
    }

    /** create_tables: pointers to the first argc of the strings lying at p on, then to the next
        envc, and on top of them where those tables are and argc. Nothing at p or above is
        touched. */
    method CreateTables(p0: nat, argc: nat, envc: nat, ghost strings: seq<CString>) returns (sp: nat)
      requires argc + envc <= |strings| && Clean(strings) && Lies(mem, p0, Join(strings)) && p0 + |Join(strings)| < WORD
      requires TableRoom(argc, envc) <= p0
      modifies this
      ensures StackAt(mem, sp, strings[..argc], strings[argc..argc + envc])
      ensures sp % 4 == 0 && sp + TableRoom(argc, envc) <= p0 + 3 && forall x: nat | p0 <= x ::
        Cell(mem, x) == old(Cell(mem, x))
    {
      var p := p0;
      sp := p - p % 4;
      sp := sp - 4 * (envc + 1);
      var envp := sp;
      sp := sp - 4 * (argc + 1);
      var argv := sp;
      Aligned(p0, envc + argc + 5);
      assert (argv - 12) % 4 == 0;
      sp := sp - 4;
      mem := PutLong(mem, sp, envp);
      sp := sp - 4;
      mem := PutLong(mem, sp, argv);
      sp := sp - 4;
      mem := PutLong(mem, sp, argc);
      HeadPut(old(mem), sp, argc, argv, envp);
      ghost var mem1 := mem;
      LiesKept(old(mem), mem1, p0, Join(strings));
      p := FillTable(argv, argc, p, strings);
      ghost var mem2 := mem;
      LiesKept(mem1, mem2, p0, Join(strings));
      DropStrings(mem2, p0, strings, argc);
      p := FillTable(envp, envc, p, strings[argc..]);
      TablesDone(mem1, mem2, mem, sp, argc, envc, p0, strings);
    }

    /** change_ldt: the argument pages are mapped one below the other under the library, with
        put_dirty_page, in a program that has no pages left. */
    method ChangeLdt(page: seq<seq<nat>>)
      requires Pages(page) && mem == map[]
      modifies this
      ensures forall a: nat | a < AREA :: Cell(mem, TOP + a) == Byte(page, a)
    {
      var base, i := TASK_SIZE - LIBRARY_SIZE, PAGES;
      while i > 0
        invariant 0 <= i <= PAGES && base == TOP + 4096 * i
        invariant forall x: nat | x < base :: Cell(mem, x) == 0
        invariant forall a: nat | 4096 * i <= a < AREA :: Cell(mem, TOP + a) == Byte(page, a)
      {
        i, base := i - 1, base - 4096;
        if page[i] != [] {
          PutPageCells(mem, base, page[i], 4096);
          mem := PutPage(mem, base, page[i], 4096);
        }
      }
    }
  }

  const TOP: nat := TASK_SIZE - LIBRARY_SIZE - AREA

  function PutPage(mem: map<nat, nat>, base: nat, bytes: seq<nat>, n: nat): map<nat, nat>
    requires n <= |bytes|
  {
    if n == 0 then mem else PutPage(mem, base, bytes, n - 1)[base + n - 1 := bytes[n - 1]]
  }

  lemma {:induction false} PutPageCells(mem: map<nat, nat>, base: nat, bytes: seq<nat>, n: nat)
    requires n <= |bytes|
    ensures forall x: nat ::
          Cell(PutPage(mem, base, bytes, n), x) == if base <= x < base + n then bytes[x - base] else Cell(mem, x)
  {
    if n > 0 { PutPageCells(mem, base, bytes, n - 1); }
  }

  /** do_execve adds the data limit to p and takes off the library and the argument area: that
      is where the bytes at p have gone. */
  lemma Moved(mem: map<nat, nat>, page: seq<seq<nat>>, p: nat, bytes: seq<nat>)
    requires Holds(page, p, bytes) && p + |bytes| <= AREA && forall a: nat | a < AREA ::
      Cell(mem, TOP + a) == Byte(page, a)
    ensures Lies(mem, p + TASK_SIZE - (LIBRARY_SIZE + AREA), bytes)
  {
    var start := TOP + p;
    forall x: nat | start <= x < start + |bytes| ensures Matches(mem, start, bytes, x) {
      assert Cell(mem, TOP + (x - TOP)) == Byte(page, x - TOP);
    }
  }

  lemma {:induction false} AtLeastNuls(strings: seq<CString>, n: nat)
    requires n <= |strings|
    ensures n <= |Joined(strings, n)|
  {
    if n > 0 { AtLeastNuls(strings, n - 1); }
  }

  lemma Aligned(p: nat, words: nat)
    ensures (p - p % 4 - 4 * words) % 4 == 0
  {
    assert p - p % 4 - 4 * words == 4 * (p / 4 - words);
  }

  lemma HeadPut(mem: map<nat, nat>, sp: nat, argc: nat, argv: nat, envp: nat)
    ensures var mem' := PutLong(PutLong(PutLong(mem, sp + 8, envp), sp + 4, argv), sp, argc);
            HeadAt(mem', sp, argc, argv, envp) && forall x: nat | x < sp || sp + 12 <= x ::
              Cell(mem', x) == Cell(mem, x)
  {
    var mem1 := PutLong(mem, sp + 8, envp);
    var mem2 := PutLong(mem1, sp + 4, argv);
    PutLongCells(mem, sp + 8, envp);
    PutLongCells(mem1, sp + 4, argv);
    PutLongCells(mem2, sp, argc);
    LongKept(mem1, mem2, sp + 8, envp);
    LongKept(mem2, PutLong(mem2, sp, argc), sp + 8, envp);
    LongKept(mem2, PutLong(mem2, sp, argc), sp + 4, argv);
  }

  /** The three words on top of the stack. */
  predicate HeadAt(mem: map<nat, nat>, sp: nat, argc: nat, argv: nat, envp: nat) {
    LongAt(mem, sp, argc) && LongAt(mem, sp + 4, argv) && LongAt(mem, sp + 8, envp)
  }

  lemma TablesDone(mem1: map<nat, nat>, mem2: map<nat, nat>, mem3: map<nat, nat>, sp: nat, argc: nat, envc: nat,
      p: nat, strings: seq<CString>)
    requires argc + envc <= |strings| && p + |Join(strings)| < WORD && Lies(mem1, p, Join(strings))
    requires var argv := sp + 12; var envp := Slot(argv, argc + 1);
             Slot(envp, envc + 1) <= p && HeadAt(mem1, sp, argc, argv, envp) &&
             (forall x: nat | x < argv || envp <= x :: Cell(mem2, x) == Cell(mem1, x)) &&
             PointsAlong(mem2, argv, argc, p, strings) && LongAt(mem2, Slot(argv, argc), 0) &&
             (forall x: nat | x < envp || Slot(envp, envc + 1) <= x :: Cell(mem3, x) == Cell(mem2, x)) &&
             PointsAlong(mem3, envp, envc, p + Start(strings, argc), strings[argc..]) &&
             LongAt(mem3, Slot(envp, envc), 0)
    ensures StackAt(mem3, sp, strings[..argc], strings[argc..argc + envc])
  {
    var argv := sp + 12;
    var envp := Slot(argv, argc + 1);
    HeadKept(mem1, mem3, sp, argc, argv, envp);
    LongIs(mem3, sp, argc);
    LongIs(mem3, sp + 4, argv);
    LongIs(mem3, sp + 8, envp);
    LiesKept(mem1, mem3, p, Join(strings));
    PointsAlongKept(mem2, mem3, argv, argc, p, strings);
    LongKept(mem2, mem3, Slot(argv, argc), 0);
    PointsAlongTable(mem3, argv, argc, p, strings);
    DropStrings(mem3, p, strings, argc);
    PointsAlongTable(mem3, envp, envc, p + Start(strings, argc), strings[argc..]);
    assert strings[argc..][..envc] == strings[argc..argc + envc];
  }

  lemma HeadKept(mem: map<nat, nat>, mem': map<nat, nat>, sp: nat, argc: nat, argv: nat, envp: nat)
    requires HeadAt(mem, sp, argc, argv, envp) && forall x: nat | sp <= x < sp + 12 :: Cell(mem', x) == Cell(mem, x)
    ensures HeadAt(mem', sp, argc, argv, envp)
  {
    LongKept(mem, mem', sp, argc);
    LongKept(mem, mem', sp + 4, argv);
    LongKept(mem, mem', sp + 8, envp);
  }

  function TableRoom(argc: nat, envc: nat): nat {
    4 * (argc + 1) + 4 * (envc + 1) + 15
  }

  lemma LiesKept(mem: map<nat, nat>, mem': map<nat, nat>, p: nat, bytes: seq<nat>)
    requires Lies(mem, p, bytes) && forall x: nat | p <= x :: Cell(mem', x) == Cell(mem, x)
    ensures Lies(mem', p, bytes)
  {
    forall a: nat | p <= a < p + |bytes| ensures Matches(mem', p, bytes, a) { assert Matches(mem, p, bytes, a); }
  }

  /** After the first n strings come the others. */
  lemma DropStrings(mem: map<nat, nat>, p: nat, strings: seq<CString>, n: nat)
    requires Lies(mem, p, Join(strings)) && n <= |strings|
    ensures Lies(mem, p + Start(strings, n), Join(strings[n..]))
    ensures Start(strings, n) + |Join(strings[n..])| == |Join(strings)|
  {
    assert strings == strings[..n] + strings[n..];
    JoinSplit(strings[..n], strings[n..]);
    JoinedSame(strings, strings[..n], n);
    LiesPart(mem, p, Join(strings), Start(strings, n), |Join(strings)|, Join(strings[n..]));
  }

  /** The end of do_execve, from change_ldt on. */
  method Enter(page: seq<seq<nat>>, p: nat, argc: nat, envc: nat, ghost strings: seq<CString>)
    returns (mem: map<nat, nat>, sp: nat)
    requires Pages(page) && Clean(strings) && Holds(page, p, Join(strings)) && p + |Join(strings)| < AREA
    requires argc + envc <= |strings|
    ensures StackAt(mem, sp, strings[..argc], strings[argc..argc + envc])
  {
    var program := new Program();
    program.ChangeLdt(page);
    Moved(program.mem, page, p, Join(strings));
    AtLeastNuls(strings, |strings|);
    sp := program.CreateTables(p + TASK_SIZE - (LIBRARY_SIZE + AREA), argc, envc, strings);
    mem := program.mem;
  }

  /** do_execve of a binary: the new program finds on its stack exactly the arguments and the
      environment it was called with. That is so if and only if they leave a byte of the area free
      and there is a frame for each page they take; if they fill it to the last byte it looks like
      a failure, and if they are longer (`wild`) the copy leaves page[] once all 32 pages are there. */
  method Exec(args: seq<CString>, envs: seq<CString>, frames: nat)
    returns (ok: bool, wild: bool, mem: map<nat, nat>, sp: nat)
    requires Clean(args) && Clean(envs)
    ensures ok ==> StackAt(mem, sp, args, envs)
    ensures ok <==> |Join(args)| + |Join(envs)| < AREA - 4 && frames >= PagesFor(|Join(args)| + |Join(envs)|)
    ensures wild <==> |Join(args)| + |Join(envs)| > AREA - 4 && |Join(envs)| != AREA - 4 && frames >= PAGES
  {
    ok, wild, mem, sp := false, false, map[], 0;
    var area := new ArgPages(frames);
    var r := area.CopyStrings(envs, AREA - 4);
    area.Supply(r);
    if r.NoMemory? { OutOfPages(|Join(envs)|, frames); }
    if !r.Copied? { return false, r.Outside?, mem, sp; }
    ghost var page1 := area.page;
    r := area.CopyStrings(args, r.p);
    area.Supply(r);
    if r.Outside? { return false, true, mem, sp; }
    if !r.Copied? || r.p == 0 { return; }
    HoldsBoth(page1, area.page, r.p, Join(args), Join(envs));
    JoinSplit(args, envs);
    mem, sp := Enter(area.page, r.p, |args|, |envs|, args + envs);
    assert (args + envs)[..|args|] == args && (args + envs)[|args|..|args| + |envs|] == envs;
    ok := true;
  }

  /** What a script's interpreter is called with before the script's own arguments. */
  function Called(name: CString, arg: seq<CString>, file: CString): seq<CString> {
    [name] + arg + [file]
  }

  function Rest(args: seq<CString>): seq<CString> {
    if args == [] then [] else args[1..]
  }

  function Block(args: seq<CString>, envs: seq<CString>, name: CString, arg: seq<CString>, file: CString)
    : seq<CString>
  {
    Called(name, arg, file) + Rest(args) + envs
  }

  /** One of the copies before the last fills the area to the last byte: its result of 0 makes the
      later ones return at once. */
  predicate FillsUp(args: seq<CString>, envs: seq<CString>, arg: seq<CString>, file: CString) {
    var envsEnd := |Join(envs)|;
    var argsEnd := envsEnd + |Join(Rest(args))|;
    var fileEnd := argsEnd + |Join([file])|;
    envsEnd == AREA - 4 || argsEnd == AREA - 4 || fileEnd == AREA - 4 || fileEnd + |Join(arg)| == AREA - 4
  }

  /** do_execve of a script: the environment, the arguments but the first, the script's name, the
      interpreter's argument (`arg` is empty or has it) and its name are copied in turn, and
      argc is counted along. As in Exec they must leave a byte free, and longer ones leave page[]
      unless they happen to fill it up on the way. */
  method ExecScript(args: seq<CString>, envs: seq<CString>, name: CString, arg: seq<CString>, file: CString,
      frames: nat)
    returns (ok: bool, wild: bool, mem: map<nat, nat>, sp: nat, argc: int)
    requires |arg| <= 1 && Clean(Block(args, envs, name, arg, file))
    ensures ok ==> argc == |Called(name, arg, file)| + |args| - 1
    ensures ok ==> var strings := Block(args, envs, name, arg, file);
      StackAt(mem, sp, strings[..argc], strings[argc..argc + |envs|])
    ensures ok <==> var n := |Join(Block(args, envs, name, arg, file))|; n < AREA - 4 && frames >= PagesFor(n)
    ensures wild <==>
      |Join(Block(args, envs, name, arg, file))| > AREA - 4 && !FillsUp(args, envs, arg, file) && frames >= PAGES
  {
    mem, sp := map[], 0;
    var page, p;
    ok, wild, page, p, argc := CopyScript(args, envs, name, arg, file, frames);
    if ok { mem, sp := Enter(page, p, argc, |envs|, Block(args, envs, name, arg, file)); }
  }

  method CopyScript(args: seq<CString>, envs: seq<CString>, name: CString, arg: seq<CString>, file: CString,
      frames: nat)
    returns (ok: bool, wild: bool, page: seq<seq<nat>>, p: nat, argc: int)
    requires |arg| <= 1
    ensures ok ==> argc == |Called(name, arg, file)| + |args| - 1 && Pages(page)
    ensures ok ==> var bytes := Join(Block(args, envs, name, arg, file));
      p > 0 && p + |bytes| == AREA - 4 && Holds(page, p, bytes)
    ensures ok <==> var n := |Join(Block(args, envs, name, arg, file))|; n < AREA - 4 && frames >= PagesFor(n)
    ensures wild <==>
      |Join(Block(args, envs, name, arg, file))| > AREA - 4 && !FillsUp(args, envs, arg, file) && frames >= PAGES
  {
    argc, page := |args|, [];
    ScriptLength(args, envs, name, arg, file);
    var area := new ArgPages(frames);
    ghost var done;
    ok, wild, p, done := CopyVectors(area, args, envs);
    if !ok { return; }
    argc := argc - 1;
    ok, wild, p, done := Copy(area, [file], p, done);
    if !ok { return; }
    argc := argc + 1;
    if arg != [] {
      ok, wild, p, done := Copy(area, arg, p, done);
      if !ok { return; }
      argc := argc + 1;
    }
    ok, wild, p, done := Copy(area, [name], p, done);
    if !ok { return; }
    argc := argc + 1;
    page := area.page;
    assert done == Block(args, envs, name, arg, file);
  }

  /** The environment and the arguments but the first. */
  method CopyVectors(area: ArgPages, args: seq<CString>, envs: seq<CString>)
    returns (ok: bool, wild: bool, p: nat, ghost done: seq<CString>)
    requires Pages(area.page) && Filled(area.page, AREA - 4)
    modifies area
    ensures Pages(area.page) && area.Spare() == old(area.Spare())
    ensures ok ==> done == Rest(args) + envs && Filled(area.page, p) && Holds(area.page, p, Join(done))
    ensures ok ==> 0 < p && p + |Join(done)| == AREA - 4 && |Join(done)| == |Join(Rest(args))| + |Join(envs)|
    ensures wild ==> !ok && area.Spare() >= 0
    ensures wild ==> |Join(envs)| != AREA - 4 && |Join(Rest(args))| + |Join(envs)| > AREA - 4
    ensures !ok && !wild ==>
      || |Join(envs)| == AREA - 4 || |Join(Rest(args))| + |Join(envs)| == AREA - 4
      || TooFew(area.Spare() + PAGES, |Join(Rest(args))| + |Join(envs)|)
  {
    ok, wild, p, done := Copy(area, envs, AREA - 4, []);
    if !ok { return; }
    ghost var above := done;
    assert above == envs;
    ok, wild, p, done := Copy(area, Rest(args), p, above);
  }

  lemma ScriptLength(args: seq<CString>, envs: seq<CString>, name: CString, arg: seq<CString>, file: CString)
    ensures |Join(Block(args, envs, name, arg, file))| ==
            |Join([name])| + |Join(arg)| + |Join([file])| + |Join(Rest(args))| + |Join(envs)|
  {
    JoinSplit(Called(name, arg, file) + Rest(args), envs);
    JoinSplit(Called(name, arg, file), Rest(args));
    JoinSplit([name] + arg, [file]);
    JoinSplit([name], arg);
  }

  /** Strings copied below others. A result of 0 stays 0 in the calls that follow. */
  method Copy(area: ArgPages, strings: seq<CString>, p0: nat, ghost above: seq<CString>)
    returns (ok: bool, wild: bool, p: nat, ghost done: seq<CString>)
    requires Pages(area.page) && 0 < p0 && p0 + |Join(above)| == AREA - 4 && Holds(area.page, p0, Join(above))
    requires Filled(area.page, p0)
    modifies area
    ensures done == strings + above && |Join(done)| == |Join(strings)| + |Join(above)|
    ensures Pages(area.page) && area.Spare() == old(area.Spare())
    ensures ok ==> 0 < p == p0 - |Join(strings)| && Holds(area.page, p, Join(done))
    ensures ok ==> Filled(area.page, p) && area.Spare() + PAGES >= PagesFor(|Join(done)|)
    ensures wild ==> !ok && |Join(strings)| > p0 && area.Spare() >= 0
    ensures !ok && !wild ==> |Join(strings)| == p0 || TooFew(area.Spare() + PAGES, |Join(done)|)
  {
    ghost var page0 := area.page;
    done := strings + above;
    JoinSplit(strings, above);
    var r := area.CopyStrings(strings, p0);
    area.Supply(r);
    if r.NoMemory? { OutOfPages(|Join(done)|, area.Spare() + PAGES); }
    if !r.Copied? || r.p == 0 { return false, r.Outside?, 0, done; }
    ok, wild, p := true, false, r.p;
    HoldsBoth(page0, area.page, p, Join(strings), Join(above));
  }

  /** That is right exactly if the script was called with at least one argument, its own name.
      With none, the count comes out one too low: the script's name leads the environment, which
      loses its last string. */
  lemma ScriptExact(args: seq<CString>, envs: seq<CString>, name: CString, arg: seq<CString>, file: CString)
    ensures var called := Called(name, arg, file);
            var strings := called + Rest(args) + envs;
            var argc := |called| + |args| - 1;
            (strings[..argc] == called + Rest(args) <==> args != []) &&
            (args != [] ==> strings[argc..argc + |envs|] == envs)
  {
    var called := Called(name, arg, file);
    var strings := called + Rest(args) + envs;
    var argc := |called| + |args| - 1;
    if args != [] {
      assert |called + Rest(args)| == argc;
    } else {
      assert |strings[..argc]| < |called|;
    }
  }
}
