/** The accounting behind every page-table update: what one changed entry, one taken or
    released frame and one added or dropped table do to reference counts and swap slots. */
module PagingOps {
  import opened Wrappers
  import opened PagingState

  function SetEntry(s: State, d: nat, e: nat, q: Pte): State
    requires HasTable(s, d) && e < 1024
  {
    s.(mem := s.mem[s.dir[d].value := Ptes(s.mem[s.dir[d].value].table[e := q])])
  }

  function AddTo(m: MemMap, f: nat, k: int): MemMap {
    if LOWF <= f < TOTALF && m[f - LOWF] + k >= 0 then m[f - LOWF := m[f - LOWF] + k] else m
  }

  function SetBytes(s: State, f: nat, page: Page): State
    requires f < TOTALF
  {
    s.(mem := s.mem[f := Bytes(page)])
  }

  /** Replace one entry and settle the counts: the page or slot of the old entry is given
      back, that of the new one is taken (from the kernel's own frames if it is there). */
  function Retarget(s: State, d: nat, e: nat, q: Pte): State
    requires HasTable(s, d) && e < 1024
  {
    var p := Entry(s, d, e);
    var m1 := if p.Present? then AddTo(s.memMap, p.pfn, -1) else s.memMap;
    var m2 := if q.Present? && q.pfn !in s.held then AddTo(m1, q.pfn, 1) else m1;
    var h := if q.Present? then s.held - {q.pfn} else s.held;
    var b1: SwapBits := if p.Swapped? && p.slot < SWAP_SLOTS then s.bits[p.slot := true] else s.bits;
    var b2: SwapBits := if q.Swapped? && q.slot < SWAP_SLOTS then b1[q.slot := false] else b1;
    SetEntry(s, d, e, q).(memMap := m2, held := h, bits := b2)
  }

  /** get_free_page took frame f: counted once, zero-filled, owned by the kernel. */
  function Grab(s: State, f: nat): State
    requires LOWF <= f < TOTALF
  {
    SetBytes(s, f, ZeroPage()).(memMap := s.memMap[f - LOWF := 1], held := s.held + {f})
  }

  /** A zeroed frame becomes the page table of directory d. */
  function NewTable(s: State, d: nat, f: nat): State
    requires d < 1024 && f < TOTALF
  {
    s.(dir := s.dir[d := Some(f)], mem := s.mem[f := Ptes(EmptyTable())], held := s.held - {f})
  }

  /** The page table of directory d is freed. */
  function DropTable(s: State, d: nat): State
    requires HasTable(s, d)
  {
    s.(dir := s.dir[d := None], memMap := AddTo(s.memMap, s.dir[d].value, -1))
  }

  /** The condition under which q may replace the entry at (d, e). */
  ghost predicate MayRetarget(s: State, d: nat, e: nat, q: Pte) {
    match q
    case Absent => true
    case Swapped(k) => k < SWAP_SLOTS && k in s.usable && s.bits[k]
    case Present(f, rw, _) =>
      && GoodPte(s, q)
      && (f >= LOWF && f !in s.held ==>
          forall u | Uses(s, u, f) && u != AsPage(d, e) ::
            u.AsPage? && !rw && !IsRw(Entry(s, u.d, u.e)) && u.d % TASK_DIRS == d % TASK_DIRS && u.e == e)
  }

  function B2I(b: bool): int { if b then 1 else 0 }

  lemma SizeSplit(r: set<Use>, a: Use, b: Use)
    requires a != b
    ensures |r| == |r - {a, b}| + B2I(a in r) + B2I(b in r)
  {
    SizeLess(r, a);
    SizeLess(r - {a}, b);
    assert r - {a, b} == r - {a} - {b};
  }

  lemma SizeLess(r: set<Use>, a: Use)
    ensures |r| == |r - {a}| + B2I(a in r)
  {
    if a in r { assert r == (r - {a}) + {a}; } else { assert r == r - {a}; }
  }

  lemma SizeStep(r: set<Use>, r': set<Use>, a: Use, b: Use)
    requires a != b && forall u: Use | u != a && u != b :: u in r' <==> u in r
    ensures |r'| == |r| - B2I(a in r) + B2I(a in r') - B2I(b in r) + B2I(b in r')
  {
    assert r' - {a, b} == r - {a, b};
    SizeSplit(r, a, b);
    SizeSplit(r', a, b);
  }

  /** Two states whose uses of f agree except possibly for a and AsKernel. */
  lemma CountStep(s: State, s': State, a: Use, f: nat)
    requires !a.AsKernel?
    requires forall u | u != a && u != AsKernel :: Uses(s', u, f) == Uses(s, u, f)
    ensures |Refs(s', f)| == |Refs(s, f)| - B2I(Uses(s, a, f)) + B2I(Uses(s', a,
      f)) - B2I(f in s.held) + B2I(f in s'.held)
  {
    forall u: Use | u != a && u != AsKernel ensures u in Refs(s', f) <==> u in Refs(s, f) {
      InRefs(s, u, f);
      InRefs(s', u, f);
    }
    SizeStep(Refs(s, f), Refs(s', f), a, AsKernel);
    InRefs(s, a, f);
    InRefs(s', a, f);
    InRefs(s, AsKernel, f);
    InRefs(s', AsKernel, f);
  }

  /** A frame used as a table, or owned by the kernel, has no second use. */
  lemma SoleUse(s: State, f: nat, u: Use, v: Use)
    requires Exclusive(s) && LOWF <= f && Uses(s, u, f) && Uses(s, v, f) && (!u.AsPage? || !v.AsPage?)
    ensures u == v
  {
    assert u == v || Compatible(s, u, v);
  }

  /** Distinct user directories have distinct tables, so one store changes one entry. */
  lemma EntryAfterSet(s: State, d: nat, e: nat, q: Pte, d': nat, e': nat)
    requires Shape(s) && Exclusive(s) && User(d, e) && HasTable(s, d) && FIRST_VM_DIR <= d' < 1024
    ensures HasTable(SetEntry(s, d, e, q), d') == HasTable(s, d')
    ensures Entry(SetEntry(s, d, e, q), d', e') == if d' == d && e' == e then q else Entry(s, d', e')
  {
    if d' != d && s.dir[d'] == s.dir[d] {
      SoleUse(s, s.dir[d].value, AsTable(d), AsTable(d'));
    }
  }

  lemma RetargetEntries(s: State, d: nat, e: nat, q: Pte)
    requires Shape(s) && Exclusive(s) && User(d, e) && HasTable(s, d)
    ensures forall d', e' | FIRST_VM_DIR <= d' < 1024 ::
      Entry(Retarget(s, d, e, q), d', e') == if d' == d && e' == e then q else Entry(s, d', e')
    ensures forall d': nat | FIRST_VM_DIR <= d' < 1024 :: HasTable(Retarget(s, d, e, q), d') == HasTable(s, d')
    ensures forall f: nat | f < TOTALF :: Retarget(s, d, e, q).mem[f].Bytes? == s.mem[f].Bytes?
  {
    forall d': nat, e': nat | FIRST_VM_DIR <= d' < 1024
      ensures Entry(Retarget(s, d, e, q), d', e') == if d' == d && e' == e then q else Entry(s, d', e')
      ensures HasTable(Retarget(s, d, e, q), d') == HasTable(s, d')
    {
      EntryAfterSet(s, d, e, q, d', e');
    }
  }

  lemma RetargetExact(s: State, d: nat, e: nat, q: Pte)
    requires Inv(s) && User(d, e) && HasTable(s, d) && MayRetarget(s, d, e, q)
    ensures Exact(Retarget(s, d, e, q))
  {
    var s' := Retarget(s, d, e, q);
    var a := AsPage(d, e);
    RetargetEntries(s, d, e, q);
    forall f: nat | LOWF <= f < TOTALF
      ensures Count(s', f) == if Managed(s', f) then |Refs(s', f)| else USED
    {
      CountStep(s, s', a, f);
      InRefs(s, a, f);
      assert Uses(s, a, f) == Maps(Entry(s, d, e), f);
      assert Uses(s', a, f) == Maps(q, f);
      if Uses(s, a, f) {
        assert a in Refs(s, f);
        assert |Refs(s, f)| > 0;
      }
      if f in s.held && Uses(s, a, f) {
        SoleUse(s, f, AsKernel, a);
      }
    }
  }

  lemma RetargetExclusive(s: State, d: nat, e: nat, q: Pte)
    requires Inv(s) && User(d, e) && HasTable(s, d) && MayRetarget(s, d, e, q)
    ensures Exclusive(Retarget(s, d, e, q))
  {
    var s' := Retarget(s, d, e, q);
    RetargetEntries(s, d, e, q);
    forall f: nat, u: Use, v: Use | LOWF <= f && Uses(s', u, f) && Uses(s', v, f) && u != v
      ensures Compatible(s', u, v)
    {
      var a := AsPage(d, e);
      if u != a && v != a {
        assert Uses(s, u, f) && Uses(s, v, f);
        assert Compatible(s, u, v);
      } else {
        var w := if u == a then v else u;
        assert Maps(q, f);
        assert Uses(s, w, f);
        if f in s.held {
          SoleUse(s, f, AsKernel, w);
        }
      }
    }
  }

  lemma RetargetSlots(s: State, d: nat, e: nat, q: Pte)
    requires Inv(s) && User(d, e) && HasTable(s, d) && MayRetarget(s, d, e, q)
    ensures SlotsExact(Retarget(s, d, e, q))
  {
    var s' := Retarget(s, d, e, q);
    var p := Entry(s, d, e);
    RetargetEntries(s, d, e, q);
    forall d', e', k: nat
      ensures HoldsSlot(s', d', e', k) == if d' == d && e' == e then q == Swapped(k) else HoldsSlot(s, d', e', k)
    {
    }
    if p.Swapped? { assert HoldsSlot(s, d, e, p.slot); }
    forall k <- s.usable | !s'.bits[k]
      ensures exists d', e' :: HoldsSlot(s', d', e', k)
    {
      if q == Swapped(k) {
        assert HoldsSlot(s', d, e, k);
      } else {
        var d', e' :| HoldsSlot(s, d', e', k);
        assert HoldsSlot(s', d', e', k);
      }
    }
  }

  /** Settling one entry keeps every invariant. */
  lemma RetargetInv(s: State, d: nat, e: nat, q: Pte)
    requires Inv(s) && User(d, e) && HasTable(s, d) && MayRetarget(s, d, e, q)
    ensures Inv(Retarget(s, d, e, q))
  {
    RetargetEntries(s, d, e, q);
    RetargetExact(s, d, e, q);
    RetargetExclusive(s, d, e, q);
    RetargetSlots(s, d, e, q);
  }

  lemma SameEntries(s: State, s': State)
    requires s'.dir == s.dir
    requires forall d: nat | FIRST_VM_DIR <= d < 1024 && s.dir[d].Some? && s.dir[d].value < TOTALF ::
      s'.mem[s.dir[d].value] == s.mem[s.dir[d].value]
    ensures forall d: nat, e: nat | FIRST_VM_DIR <= d < 1024 :: Entry(s', d, e) == Entry(s, d, e)
  {
  }

  lemma SlotsFrame(s: State, s': State)
    requires SlotsExact(s) && s'.bits == s.bits && s'.usable == s.usable
    requires forall d: nat, e: nat | User(d, e) :: Entry(s', d, e) == Entry(s, d, e)
    ensures SlotsExact(s')
  {
    forall d: nat, e: nat, k: nat ensures HoldsSlot(s', d, e, k) == HoldsSlot(s, d, e, k) {}
  }

  lemma SetBytesInv(s: State, f: nat, page: Page)
    requires Inv(s) && f < TOTALF && s.mem[f].Bytes?
    ensures Inv(SetBytes(s, f, page))
    ensures forall d: nat, e: nat | FIRST_VM_DIR <= d < 1024 :: Entry(SetBytes(s, f, page), d, e) == Entry(s, d, e)
  {
    var s' := SetBytes(s, f, page);
    SameEntries(s, s');
    forall g: nat, u: Use ensures Uses(s', u, g) == Uses(s, u, g) {}
    forall g: nat | LOWF <= g < TOTALF ensures Count(s', g) == if Managed(s', g) then |Refs(s', g)| else USED {
      CountStep(s, s', AsTable(0), g);
    }
    forall g: nat, u: Use, v: Use | LOWF <= g && Uses(s', u, g) && Uses(s', v, g) && u != v
      ensures Compatible(s', u, v)
    {
      assert Compatible(s, u, v);
    }
    SlotsFrame(s, s');
  }

  lemma FreeFrameUnused(s: State, f: nat, u: Use)
    requires Inv(s) && Managed(s, f) && Count(s, f) == 0
    ensures !Uses(s, u, f)
  {
    InRefs(s, u, f);
    assert Refs(s, f) == {};
  }

  lemma GrabInv(s: State, f: nat)
    requires Inv(s) && Managed(s, f) && Count(s, f) == 0
    ensures Inv(Grab(s, f))
    ensures forall d: nat, e: nat | FIRST_VM_DIR <= d < 1024 :: Entry(Grab(s, f), d, e) == Entry(s, d, e)
    ensures forall d: nat, e: nat | FIRST_VM_DIR <= d < 1024 :: !Maps(Entry(s, d, e), f)
    ensures forall d: nat | FIRST_VM_DIR <= d < 1024 :: s.dir[d] != Some(f)
  {
    var s' := Grab(s, f);
    forall u: Use ensures !Uses(s, u, f) { FreeFrameUnused(s, f, u); }
    forall d: nat | FIRST_VM_DIR <= d < 1024 ensures s.dir[d] != Some(f) { assert !Uses(s, AsTable(d), f); }
    forall d: nat, e: nat | FIRST_VM_DIR <= d < 1024 ensures !Maps(Entry(s, d, e), f) {
      if e < 1024 { assert !Uses(s, AsPage(d, e), f); }
    }
    SameEntries(s, s');
    forall g: nat | LOWF <= g < TOTALF ensures Count(s', g) == if Managed(s', g) then |Refs(s', g)| else USED {
      CountStep(s, s', AsTable(0), g);
      assert Uses(s', AsTable(0), g) == Uses(s, AsTable(0), g);
      if g == f { assert !Uses(s, AsKernel, f); }
    }
    forall g: nat, u: Use, v: Use | LOWF <= g && Uses(s', u, g) && Uses(s', v, g) && u != v
      ensures Compatible(s', u, v)
    {
      if g != f {
        assert Uses(s, u, g) && Uses(s, v, g);
        assert Compatible(s, u, v);
      }
    }
    SlotsFrame(s, s');
  }

  lemma HeldUse(s: State, f: nat, u: Use)
    requires Inv(s) && f in s.held && Uses(s, u, f)
    ensures u == AsKernel
  {
    SoleUse(s, f, AsKernel, u);
  }

  lemma NewTableInv(s: State, d: nat, f: nat)
    requires Inv(s) && f in s.held && FIRST_VM_DIR <= d < 1024 && s.dir[d].None?
    ensures Inv(NewTable(s, d, f)) && HasTable(NewTable(s, d, f), d)
    ensures forall d': nat, e: nat | FIRST_VM_DIR <= d' < 1024 :: Entry(NewTable(s, d, f), d', e) == Entry(s, d', e)
  {
    var s' := NewTable(s, d, f);
    forall d': nat | FIRST_VM_DIR <= d' < 1024 ensures s.dir[d'] != Some(f) {
      if s.dir[d'] == Some(f) { HeldUse(s, f, AsTable(d')); }
    }
    forall d': nat, e: nat | FIRST_VM_DIR <= d' < 1024 ensures !Maps(Entry(s, d', e), f) {
      if e < 1024 && Maps(Entry(s, d', e), f) { HeldUse(s, f, AsPage(d', e)); }
    }
    forall g: nat | LOWF <= g < TOTALF ensures Count(s', g) == if Managed(s', g) then |Refs(s', g)| else USED {
      CountStep(s, s', AsTable(d), g);
    }
    forall g: nat, u: Use, v: Use | LOWF <= g && Uses(s', u, g) && Uses(s', v, g) && u != v
      ensures Compatible(s', u, v)
    {
      if g != f {
        assert Uses(s, u, g) && Uses(s, v, g);
        assert Compatible(s, u, v);
      }
    }
    SlotsFrame(s, s');
  }

  lemma DropTableInv(s: State, d: nat)
    requires Inv(s) && FIRST_VM_DIR <= d < 1024 && s.dir[d].Some?
    requires forall e: nat | e < 1024 :: Entry(s, d, e) == Absent
    ensures Inv(DropTable(s, d))
    ensures forall d': nat, e: nat | FIRST_VM_DIR <= d' < 1024 :: Entry(DropTable(s, d), d', e) == Entry(s, d', e)
  {
    var s' := DropTable(s, d);
    var f := s.dir[d].value;
    assert Uses(s, AsTable(d), f);
    InRefs(s, AsTable(d), f);
    assert |Refs(s, f)| > 0;
    forall g: nat | LOWF <= g < TOTALF ensures Count(s', g) == if Managed(s', g) then |Refs(s', g)| else USED {
      CountStep(s, s', AsTable(d), g);
    }
    forall g: nat, u: Use, v: Use | LOWF <= g && Uses(s', u, g) && Uses(s', v, g) && u != v
      ensures Compatible(s', u, v)
    {
      assert Uses(s, u, g) && Uses(s, v, g);
      assert Compatible(s, u, v);
    }
    SlotsFrame(s, s');
  }
}
