/** The whole page allocator: several memory areas and every run of initialising areas, allocating
    and freeing (lib/alloc_page.c). */
module PageRuns {
  import opened Basics
  import opened Bits
  import opened Lists
  import opened PageArea
  import opened PageFit
  import opened PageFresh
  import opened PageInit
  import opened PageOps

  /** An entry of areas[]; `start` is the first frame of the area, where its state table lies. */
  datatype Slot = Unused | Used(start: nat, area: Area)

  /** The areas, and a ledger of the blocks handed out and not yet returned (first page to order). */
  datatype Heap = Heap(slots: seq<Slot>, live: map<nat, nat>)

  // ----- Live blocks of one area -----

  ghost function LiveBlocks(a: Area): (r: iset<(nat, nat)>)
    requires a.Sized()
  {
    iset b: (nat, nat) | a.LiveBlock(b.0, b.1)
  }

  lemma GrantAddsLive(a: Area, b: Area, al: nat, sz: nat, s: nat)
    requires a.Sized() && b.Valid() && Granted(a, b, al, sz, s)
    ensures LiveBlocks(b) == LiveBlocks(a) + iset{(s, sz)}
    ensures forall k :: (s, k) !in LiveBlocks(a)
  {
    hide Exact, Pages;
    WholeBlock(b, s, sz);
    assert a.Contains(s) && IsUsable(a.At(s));
    forall x: nat, j: nat ensures a.LiveBlock(x, j) || (x == s && j == sz) <==> b.LiveBlock(x, j) {
      if b.LiveBlock(x, j) {
        assert x in b.Allocated();
        if s <= x < s + Pow2(sz) {
          OnlyStartAligned(s, sz, x);
        } else {
          assert x in a.Allocated();
        }
      }
      if a.LiveBlock(x, j) {
        assert b.At(x) == a.At(x);
      }
    }
  }

  lemma FreeRemovesLive(a: Area, s: nat)
    requires a.Valid() && Free(a, s).Some?
    ensures a.Contains(s) && Free(a, s).value.Sized()
    ensures LiveBlocks(Free(a, s).value) == LiveBlocks(a) - iset{(s, OrderOf(a.At(s)))}
  {
    hide Exact, Pages, Area.TiledIn, Area.FreshBounded, Free;
    FreeCorrect(a, s);
    var b, k := Free(a, s).value, OrderOf(a.At(s));
    WholeBlock(a, s, k);
    forall x: nat, j: nat ensures b.LiveBlock(x, j) <==> a.LiveBlock(x, j) && x != s {
      if s <= x < s + Pow2(k) {
        if x in b.Allocated() {
          assert false;
        }
        if Aligned(x, k) {
          OnlyStartAligned(s, k, x);
        }
      }
    }
  }

  /** Two live blocks of an area coincide or share no page. */
  lemma LiveDisjoint(a: Area, s: nat, k: nat, t: nat, j: nat, x: nat)
    requires a.Valid() && a.LiveBlock(s, k) && a.LiveBlock(t, j)
    requires s <= x < s + Pow2(k) && t <= x < t + Pow2(j)
    ensures s == t && k == j
  {
    WholeBlock(a, s, k);
    WholeBlock(a, t, j);
    AlignDownUnique(x, k, s);
    AlignDownUnique(x, j, t);
  }

  /** Every page of an area is usable or allocated, never both: their number is constant. */
  lemma Conserved(a: Area)
    requires a.Valid()
    ensures |a.Usable()| + |a.Allocated()| == a.top - a.base
  {
    var u, l, all := a.Usable(), a.Allocated(), Pages(a.base, a.top - a.base);
    forall p ensures p in all <==> p in u || p in l {
      if a.Contains(p) {
        assert a.BlockWithin(p, a.base, a.top);
      }
    }
    assert u + l == all && u !! l;
  }

  // ----- What the search bound costs -----

  /** Two fresh blocks of two pages, at frames 2 and 4. */
  function TwoPairs(): (a: Area) {
    Extended(Extended(Area(2, 2, [], seq(NLISTS, _ => []), 0), 1), 1)
  }

  lemma TwoPairsValid()
    ensures TwoPairs().Valid() && TwoPairs().lists[1] == [4, 2] && TwoPairs().lists[0] == []
    ensures TwoPairs().maxOrder == 1 && TwoPairs().top == 6 && TwoPairs().base == 2
    ensures TwoPairs().FreeBlock(4, 1) && TwoPairs().FreeBlock(2, 1)
  {
    hide Exact, Area.TiledIn, Area.FreshBounded;
    var e := Area(2, 2, [], seq(NLISTS, _ => []), 0);
    Pow2Mono(5, NLISTS);
    EmptyValid(e);
    ExtendKeeps(e, 1);
    ExtendKeeps(Extended(e, 1), 1);
  }

  /** The second pair taken as a whole, then the first page of the first pair. */
  lemma TwoPairsTaken()
    ensures TwoPairs().Valid()
    ensures var r := Alloc(TwoPairs(), 0, 1);
      r == AllocResult(Take(TwoPairs(), 4, 1), Some(4)) && r.area.Valid() && r.area.FreeBlock(2, 1)
  {
    hide Exact, Area.TiledIn, Area.FreshBounded, TwoPairs, Granted;
    TwoPairsValid();
    AllocCorrect(TwoPairs(), 0, 1);
    TakeKeeps(TwoPairs(), 4, 1);
    assert FirstOrder(TwoPairs(), 1) == 1;
  }

  lemma PairSplit(a: Area)
    requires a.Valid() && a.lists[0] == [] && a.lists[1] == [2] && a.maxOrder == 1 && a.LiveBlock(4, 1)
    ensures var r := Alloc(a, 0, 0);
      r.block == Some(2) && r.area.Valid() && r.area.maxOrder == 0 && r.area.LiveBlock(4, 1)
  {
    hide Exact, Area.TiledIn, Area.FreshBounded;
    assert FirstOrder(a, 0) == 1;
    FirstIsBlock(a, 1);
    SplitKeeps(a, 2, 1);
    var b := Split(a, 2);
    assert SplitDown(a, 2, 1, 0) == b;
    AllocCorrect(a, 0, 0);
    assert b.maxOrder == 0 by { assert Without([2], 2) == []; }
  }

  /** Freeing never raises max_order, so a block returned above it is not found by the next search. */
  lemma FreedBlockMissed(a: Area, s: nat, k: nat)
    requires a.Valid() && a.LiveBlock(s, k) && k > a.maxOrder && k < NLISTS
    ensures Free(a, s).Some? && Free(a, s).value.Valid() && Free(a, s).value.FreeBlock(s, k)
    ensures Alloc(Free(a, s).value, k, k).block.None?
  {
    hide Exact, Area.TiledIn, Area.FreshBounded;
    ReleaseKeeps(a, s, k);
    assert Free(a, s).value.At(s) == STATUS_FREE + k;
  }

  // ----- Areas -----

  ghost predicate SlotsValid(slots: seq<Slot>) {
    forall i :: 0 <= i < |slots| && slots[i].Used? ==> slots[i].area.Valid() && slots[i].start < slots[i].area.base
  }

  /** The frames of area i, its state table included. */
  predicate InSlot(s: Slot, p: int) {
    s.Used? && s.start <= p < s.area.top
  }

  ghost predicate SlotsDisjoint(slots: seq<Slot>) {
    forall i, j, p :: 0 <= i < |slots| && 0 <= j < |slots| && InSlot(slots[i], p) && InSlot(slots[j], p) ==> i == j
  }

  /** The asserts at the head of _page_alloc_init_area, with the four endpoint tests against each area. */
  ghost predicate InitAccepted(slots: seq<Slot>, n: nat, start: nat, end: nat) {
    && n < |slots| && slots[n].Unused?
    && end > start && end - start > 4 && end < Pow2(NLISTS)
    && forall i :: 0 <= i < |slots| && slots[i].Used? ==>
         && !InSlot(slots[i], start) && !InSlot(slots[i], end - 1)
         && !(start <= slots[i].start < end) && !(start <= slots[i].area.top - 1 < end)
  }

  /** What the constructor of an area establishes. */
  ghost predicate InitialArea(a: Area, start: nat, end: nat)
    requires end > start
  {
    && a.Valid() && a.base == start + TableSize(end - start) && a.top == end
    && CutMaximal(a, end) && MaxPlaced(a) && Descending(a.lists)
  }

  /** The four endpoint tests are enough for the new area to share no frame with any other. */
  lemma EndpointsSuffice(slots: seq<Slot>, n: nat, start: nat, end: nat, a: Area)
    requires SlotsValid(slots) && SlotsDisjoint(slots)
    requires InitAccepted(slots, n, start, end) && InitialArea(a, start, end)
    ensures SlotsDisjoint(slots[n := Used(start, a)])
  {
    hide Area.Valid, CutMaximal, MaxPlaced;
  }

  /** And they refuse nothing else: they pass exactly when the new frames overlap no area. */
  lemma EndpointsExact(slots: seq<Slot>, n: nat, start: nat, end: nat)
    requires SlotsValid(slots) && n < |slots| && slots[n].Unused?
    requires end > start && end - start > 4 && end < Pow2(NLISTS)
    ensures InitAccepted(slots, n, start, end) <==>
            forall i, p :: 0 <= i < |slots| && start <= p < end ==> !InSlot(slots[i], p)
  {
    hide Area.TiledIn, Exact, Area.FreshBounded, Pow2;
    if forall i, p :: 0 <= i < |slots| && start <= p < end ==> !InSlot(slots[i], p) {
      forall i | 0 <= i < |slots| && slots[i].Used?
        ensures !(start <= slots[i].start < end) && !(start <= slots[i].area.top - 1 < end)
      {
        assert InSlot(slots[i], slots[i].start) && InSlot(slots[i], slots[i].area.top - 1);
      }
    }
  }

  /** get_area: the first area whose usable range holds the frame. */
  method GetArea(slots: seq<Slot>, p: nat) returns (r: Option<nat>)
    requires SlotsValid(slots) && SlotsDisjoint(slots)
    ensures r.None? ==> forall i :: 0 <= i < |slots| && slots[i].Used? ==> !slots[i].area.Contains(p)
    ensures r.Some? ==> r.value < |slots| && slots[r.value].Used? && slots[r.value].area.Contains(p)
    ensures forall i :: 0 <= i < |slots| && slots[i].Used? && slots[i].area.Contains(p) ==> r == Some(i)
  {
    for i := 0 to |slots|
      invariant forall j :: 0 <= j < i && slots[j].Used? ==> !slots[j].area.Contains(p)
    {
      if slots[i].Used? && slots[i].area.Contains(p) {
        forall j | 0 <= j < |slots| && slots[j].Used? && slots[j].area.Contains(p) ensures j == i {
          assert InSlot(slots[i], p) && InSlot(slots[j], p);
        }
        return Some(i);
      }
    }
    return None;
  }

  // ----- Steps -----

  datatype Op =
    | InitArea(n: nat, start: nat, end: nat, area: Area)
    | Allocate(q: Request, allowed: set<nat>, result: Option<nat>)
    | Release(page: nat)

  /** page_memalign_order_flags: tries the allowed areas in order of their number. */
  ghost function AllocIn(slots: seq<Slot>, allowed: set<nat>, q: Request, i: nat): (r: (seq<Slot>, Option<nat>))
    requires SlotsValid(slots) && q.Ok() && i <= |slots|
    decreases |slots| - i
  {
    if i == |slots| then (slots, None)
    else if i !in allowed || slots[i].Unused? then AllocIn(slots, allowed, q, i + 1)
    else
      var r := Serve(slots[i].area, q);
      if r.block.None? then AllocIn(slots, allowed, q, i + 1)
      else (slots[i := Used(slots[i].start, r.area)], r.block)
  }

  ghost predicate FreedIn(slots: seq<Slot>, p: nat, i: nat, slots': seq<Slot>)
    requires SlotsValid(slots)
  {
    && i < |slots| && slots[i].Used? && slots[i].area.Contains(p)
    && var r := PageOps.Free(slots[i].area, p);
       r.Some? && slots' == slots[i := Used(slots[i].start, r.value)]
  }

  ghost predicate Next(h: Heap, op: Op, h': Heap)
    requires SlotsValid(h.slots)
  {
    match op
    case InitArea(n, start, end, a) =>
      && InitAccepted(h.slots, n, start, end) && InitialArea(a, start, end)
      && h' == Heap(h.slots[n := Used(start, a)], h.live)
    case Allocate(q, allowed, res) =>
      && q.Ok()
      && (h'.slots, res) == AllocIn(h.slots, allowed, q, 0)
      && h'.live == (if res.Some? then h.live[res.value := q.Order()] else h.live)
    case Release(p) =>
      if p == 0 then h' == h  // NULL is ignored
      else
        && p in h.live
        && h'.live == h.live - {p}
        && exists i: nat :: FreedIn(h.slots, p, i, h'.slots)
  }

  // ----- Invariant -----

  ghost predicate IsLive(slots: seq<Slot>, p: nat, k: nat)
    requires SlotsValid(slots)
  {
    exists i :: 0 <= i < |slots| && slots[i].Used? && slots[i].area.LiveBlock(p, k)
  }

  /** The areas are valid and disjoint, and the ledger lists exactly the live blocks. */
  ghost predicate HeapInv(h: Heap) {
    && SlotsValid(h.slots) && SlotsDisjoint(h.slots)
    && forall p: nat, k: nat :: (p in h.live && h.live[p] == k) <==> IsLive(h.slots, p, k)
  }

  /** The live blocks after area i has been replaced by b. */
  lemma LiveAfter(slots: seq<Slot>, i: nat, b: Area, p: nat, k: nat)
    requires SlotsValid(slots) && SlotsDisjoint(slots) && i < |slots| && slots[i].Used?
    requires b.Valid() && b.base == slots[i].area.base && b.top == slots[i].area.top
    ensures var slots' := slots[i := Used(slots[i].start, b)];
      && SlotsValid(slots') && SlotsDisjoint(slots')
      && IsLive(slots', p, k) == if b.Contains(p) then b.LiveBlock(p, k) else IsLive(slots, p, k)
    ensures b.Contains(p) ==> IsLive(slots, p, k) == slots[i].area.LiveBlock(p, k)
  {
    hide Exact, Area.TiledIn, Area.FreshBounded, Aligned, SlotsDisjoint;
    var slots' := slots[i := Used(slots[i].start, b)];
    SameFrames(slots, slots', i);
    assert forall j :: 0 <= j < |slots'| && j != i ==> slots'[j] == slots[j];
    if b.Contains(p) {
      OnlyArea(slots, i, p, k);
      OnlyArea(slots', i, p, k);
    } else {
      if IsLive(slots, p, k) {
        var j :| 0 <= j < |slots| && slots[j].Used? && slots[j].area.LiveBlock(p, k);
        assert slots'[j] == slots[j];
      }
    }
  }

  lemma SameFrames(slots: seq<Slot>, slots': seq<Slot>, i: nat)
    requires SlotsDisjoint(slots) && i < |slots| && slots[i].Used? && |slots'| == |slots|
    requires forall j :: 0 <= j < |slots| && j != i ==> slots'[j] == slots[j]
    requires slots'[i].Used? && slots'[i].start == slots[i].start && slots'[i].area.top == slots[i].area.top
    ensures SlotsDisjoint(slots')
  {
    assert forall j, p :: 0 <= j < |slots| ==> (InSlot(slots'[j], p) <==> InSlot(slots[j], p));
  }

  lemma OnlyArea(slots: seq<Slot>, i: nat, p: nat, k: nat)
    requires SlotsValid(slots) && SlotsDisjoint(slots) && i < |slots| && slots[i].Used?
    requires slots[i].area.Contains(p)
    ensures IsLive(slots, p, k) == slots[i].area.LiveBlock(p, k)
  {
    hide Exact, Area.TiledIn, Area.FreshBounded, Aligned;
    if IsLive(slots, p, k) {
      var j :| 0 <= j < |slots| && slots[j].Used? && slots[j].area.LiveBlock(p, k);
      assert InSlot(slots[i], p) && InSlot(slots[j], p);
    }
  }

  /** Area n is allowed, in use, and can serve the request. */
  ghost predicate Grants(slots: seq<Slot>, allowed: set<nat>, q: Request, n: nat)
    requires SlotsValid(slots)
  {
    n < |slots| && n in allowed && slots[n].Used? && CanServe(slots[n].area, q)
  }

  /** NULL is returned exactly when no allowed area has a block that its search reaches; otherwise the first such
      area grants one of its own and the others stay as they are. */
  lemma {:induction false} AllocInSpec(slots: seq<Slot>, allowed: set<nat>, q: Request, i: nat) returns (n: nat)
    requires SlotsValid(slots) && q.Ok() && i <= |slots|
    ensures var r := AllocIn(slots, allowed, q, i);
      && (r.1.None? <==> forall m :: i <= m < |slots| ==> !Grants(slots, allowed, q, m))
      && (r.1.None? ==> r.0 == slots)
      && (r.1.Some? ==>
            && i <= n && Grants(slots, allowed, q, n)
            && (forall m :: i <= m < n ==> !Grants(slots, allowed, q, m))
            && r.0 == slots[n := Used(slots[n].start, Serve(slots[n].area, q).area)]
            && r.1 == Serve(slots[n].area, q).block)
    decreases |slots| - i
  {
    hide Serve, CanServe, Area.Valid;
    n := i;
    if i < |slots| {
      if i in allowed && slots[i].Used? { ServeFails(slots[i].area, q); }
      if !Grants(slots, allowed, q, i) {
        n := AllocInSpec(slots, allowed, q, i + 1);
      }
    }
  }

  lemma InitKeeps(h: Heap, op: Op, h': Heap)
    requires HeapInv(h) && op.InitArea? && Next(h, op, h')
    ensures HeapInv(h')
  {
    hide Exact, Area.TiledIn, Area.FreshBounded;
    TableSizeLeast(op.end - op.start, TableSize(op.end - op.start));
    EndpointsSuffice(h.slots, op.n, op.start, op.end, op.area);
    forall p: nat, k: nat ensures IsLive(h'.slots, p, k) == IsLive(h.slots, p, k) {
      InitLive(h.slots, op.n, Used(op.start, op.area), p, k);
    }
  }

  /** A fresh area brings no live block. */
  lemma InitLive(slots: seq<Slot>, n: nat, s: Slot, p: nat, k: nat)
    requires SlotsValid(slots) && n < |slots| && slots[n].Unused? && s.Used?
    requires s.area.Valid() && s.start < s.area.base
    requires forall q :: s.area.Contains(q) ==> IsFresh(s.area.At(q))
    ensures SlotsValid(slots[n := s]) && IsLive(slots[n := s], p, k) == IsLive(slots, p, k)
  {
    hide Exact, Area.TiledIn, Area.FreshBounded, Aligned;
    var slots' := slots[n := s];
    if IsLive(slots, p, k) {
      var j :| 0 <= j < |slots| && slots[j].Used? && slots[j].area.LiveBlock(p, k);
      assert slots'[j] == slots[j];
    }
    if IsLive(slots', p, k) {
      var j :| 0 <= j < |slots| && slots'[j].Used? && slots'[j].area.LiveBlock(p, k);
      assert slots'[j] == slots[j];
    }
  }

  lemma AllocateKeeps(h: Heap, op: Op, h': Heap)
    requires HeapInv(h) && op.Allocate? && Next(h, op, h')
    ensures HeapInv(h')
  {
    hide Granted, Area.LiveBlock, AllocIn, Serve, Exact, Area.TiledIn, Area.FreshBounded;
    var i := AllocInSpec(h.slots, op.allowed, op.q, 0);
    if op.result.Some? {
      var a, s := h.slots[i].area, op.result.value;
      var b := Serve(a, op.q).area;
      ServeCorrect(a, op.q);
      AllocFacts(a, b, op.q.Alignment(), op.q.Order(), s);
      forall p: nat, k: nat
        ensures (p in h'.live && h'.live[p] == k) <==> IsLive(h'.slots, p, k)
      {
        LiveAfter(h.slots, i, b, p, k);
      }
      LiveAfter(h.slots, i, b, 0, 0);
    }
  }

  lemma AllocFacts(a: Area, b: Area, al: nat, sz: nat, s: nat)
    requires a.Valid() && b.Valid() && Granted(a, b, al, sz, s)
    ensures a.base == b.base && a.top == b.top && a.Contains(s)
    ensures forall p: nat, k: nat :: b.LiveBlock(p, k) <==> a.LiveBlock(p, k) || (p == s && k == sz)
    ensures forall k: nat :: !a.LiveBlock(s, k)
  {
    hide Exact, Area.TiledIn, Area.FreshBounded;
    GrantAddsLive(a, b, al, sz, s);
    forall p: nat, k: nat ensures b.LiveBlock(p, k) <==> a.LiveBlock(p, k) || (p == s && k == sz) {
      assert (p, k) in LiveBlocks(b) <==> (p, k) in LiveBlocks(a) + iset{(s, sz)};
    }
    forall k: nat ensures !a.LiveBlock(s, k) {
      assert (s, k) !in LiveBlocks(a);
    }
  }

  lemma ReleaseKeepsHeap(h: Heap, op: Op, h': Heap)
    requires HeapInv(h) && op.Release? && Next(h, op, h')
    ensures HeapInv(h')
  {
    hide Area.LiveBlock, PageOps.Free, Exact, Area.TiledIn, Area.FreshBounded;
    if op.page == 0 {
      return;
    }
    var i: nat :| FreedIn(h.slots, op.page, i, h'.slots);
    var a, s := h.slots[i].area, op.page;
    var b := PageOps.Free(a, s).value;
    FreeFacts(a, s);
    forall p: nat, k: nat ensures (p in h'.live && h'.live[p] == k) <==> IsLive(h'.slots, p, k) {
      LiveAfter(h.slots, i, b, p, k);
    }
    LiveAfter(h.slots, i, b, 0, 0);
  }

  lemma FreeFacts(a: Area, s: nat)
    requires a.Valid() && PageOps.Free(a, s).Some?
    ensures var b := PageOps.Free(a, s).value;
      && b.Valid() && b.base == a.base && b.top == a.top && a.Contains(s)
      && forall p: nat, k: nat :: b.LiveBlock(p, k) <==> a.LiveBlock(p, k) && p != s
  {
    hide Exact, Area.TiledIn, Area.FreshBounded, PageOps.Free;
    FreeCorrect(a, s);
    FreeRemovesLive(a, s);
    var b := PageOps.Free(a, s).value;
    forall p: nat, k: nat ensures b.LiveBlock(p, k) <==> a.LiveBlock(p, k) && p != s {
      assert (p, k) in LiveBlocks(b) <==> (p, k) in LiveBlocks(a) - iset{(s, OrderOf(a.At(s)))};
    }
  }

  // ----- Runs -----

  ghost predicate Initial(h: Heap) {
    (forall i :: 0 <= i < |h.slots| ==> h.slots[i].Unused?) && h.live == map[]
  }

  /** h is reached from the initial state by the operations ops. */
  ghost predicate Reached(ops: seq<Op>, h: Heap)
    decreases |ops|
  {
    if ops == [] then Initial(h)
    else exists g :: Reached(ops[..|ops| - 1], g) && SlotsValid(g.slots) && Next(g, ops[|ops| - 1], h)
  }

  /** Every reached state satisfies the invariant. */
  lemma {:induction false} RunsKeepInvariant(ops: seq<Op>, h: Heap)
    requires Reached(ops, h)
    ensures HeapInv(h)
    decreases |ops|
  {
    if ops != [] {
      var op := ops[|ops| - 1];
      var g :| Reached(ops[..|ops| - 1], g) && SlotsValid(g.slots) && Next(g, op, h);
      RunsKeepInvariant(ops[..|ops| - 1], g);
      StepKeepsHeap(g, op, h);
    }
  }

  lemma StepKeepsHeap(g: Heap, op: Op, h: Heap)
    requires HeapInv(g) && Next(g, op, h)
    ensures HeapInv(h)
  {
    hide HeapInv, Next;
    match op
    case InitArea(_, _, _, _) => InitKeeps(g, op, h);
    case Allocate(_, _, _) => AllocateKeeps(g, op, h);
    case Release(_) => ReleaseKeepsHeap(g, op, h);
  }

  // ----- Conservation -----

  /** h is reached from g by the operations ops. */
  ghost predicate Leads(g: Heap, ops: seq<Op>, h: Heap)
    decreases |ops|
  {
    if ops == [] then h == g
    else exists r :: Leads(g, ops[..|ops| - 1], r) && SlotsValid(r.slots) && Next(r, ops[|ops| - 1], h)
  }

  /** The frames of area i are the same in both states. */
  ghost predicate SameFrame(g: Heap, h: Heap, i: nat) {
    && i < |g.slots| == |h.slots| && g.slots[i].Used? && h.slots[i].Used?
    && h.slots[i].start == g.slots[i].start
    && h.slots[i].area.base == g.slots[i].area.base && h.slots[i].area.top == g.slots[i].area.top
  }

  lemma StepKeepsFrame(g: Heap, op: Op, h: Heap, i: nat)
    requires HeapInv(g) && Next(g, op, h) && i < |g.slots| && g.slots[i].Used?
    ensures SameFrame(g, h, i)
  {
    hide Granted, AllocIn, Serve, PageOps.Free, Exact, Area.TiledIn, Area.FreshBounded, InitialArea, IsLive;
    match op
    case InitArea(_, _, _, _) =>
    case Allocate(q, allowed, res) =>
      var n := AllocInSpec(g.slots, allowed, q, 0);
      if res.Some? {
        var a := g.slots[n].area;
        ServeCorrect(a, q);
        AllocFacts(a, Serve(a, q).area, q.Alignment(), q.Order(), res.value);
      }
    case Release(p) =>
      if p != 0 {
        var n: nat :| FreedIn(g.slots, p, n, h.slots);
        FreeFacts(g.slots[n].area, p);
      }
  }

  lemma {:induction false} LeadsKeeps(g: Heap, ops: seq<Op>, h: Heap, i: nat)
    requires HeapInv(g) && Leads(g, ops, h) && i < |g.slots| && g.slots[i].Used?
    ensures HeapInv(h) && SameFrame(g, h, i)
    decreases |ops|
  {
    hide HeapInv, Next;
    if ops != [] {
      var op := ops[|ops| - 1];
      var r :| Leads(g, ops[..|ops| - 1], r) && SlotsValid(r.slots) && Next(r, op, h);
      LeadsKeeps(g, ops[..|ops| - 1], r, i);
      StepKeepsFrame(r, op, h, i);
      StepKeepsHeap(r, op, h);
    }
  }

  /** From any reached state on, whatever is allocated, freed or added later: an area stays where it is, and
      its usable and allocated pages add up to the same number. */
  lemma RunsConserve(before: seq<Op>, g: Heap, ops: seq<Op>, h: Heap, i: nat)
    requires Reached(before, g) && Leads(g, ops, h) && i < |g.slots| && g.slots[i].Used?
    ensures SameFrame(g, h, i)
    ensures var a, b := g.slots[i].area, h.slots[i].area;
      a.Sized() && b.Sized() && |b.Usable()| + |b.Allocated()| == |a.Usable()| + |a.Allocated()|
  {
    hide Reached, Leads, Exact, Area.TiledIn, Area.FreshBounded, Area.Usable, Area.Allocated;
    RunsKeepInvariant(before, g);
    LeadsKeeps(g, ops, h, i);
    Conserved(g.slots[i].area);
    Conserved(h.slots[i].area);
  }

  // ----- Fresh memory -----

  /** Page p of area i has been handed out at some time, or is part of a block that was. */
  ghost predicate UsedBefore(h: Heap, i: nat, p: nat) {
    && i < |h.slots| && h.slots[i].Used? && h.slots[i].area.Sized() && h.slots[i].area.Contains(p)
    && !IsFresh(h.slots[i].area.At(p))
  }

  lemma StepStaysUsed(g: Heap, op: Op, h: Heap, i: nat, p: nat)
    requires HeapInv(g) && Next(g, op, h) && UsedBefore(g, i, p)
    ensures UsedBefore(h, i, p)
  {
    hide AllocIn, Serve, PageOps.Free, Exact, Area.TiledIn, Area.FreshBounded, InitialArea, IsLive, IsFresh;
    match op
    case InitArea(_, _, _, _) =>
    case Allocate(q, allowed, res) =>
      var n := AllocInSpec(g.slots, allowed, q, 0);
      if res.Some? && n == i { ServeStaysUsed(g.slots[n].area, q, p); }
    case Release(x) =>
      if x != 0 {
        var n: nat :| FreedIn(g.slots, x, n, h.slots);
        if n == i { FreeStaysUsed(g.slots[n].area, x, p); }
      }
  }

  lemma FreeStaysUsed(a: Area, s: nat, p: nat)
    requires a.Valid() && PageOps.Free(a, s).Some? && a.Contains(p) && !IsFresh(a.At(p))
    ensures var b := PageOps.Free(a, s).value; b.Sized() && b.Contains(p) && !IsFresh(b.At(p))
  {
    hide Exact, Area.TiledIn, Area.FreshBounded, Aligned, PageArea.Release, Pow2;
    var k := OrderOf(a.At(s));
    ReleaseKeeps(a, s, k);
    ReleaseStates(a, s, k);
  }

  /** From any reached state on, whatever is done later: a page that is allocated, or was before, is never fresh
      again. So fresh memory was never handed out. */
  lemma {:induction false} UsedNeverFresh(before: seq<Op>, g: Heap, ops: seq<Op>, h: Heap, i: nat, p: nat)
    requires Reached(before, g) && Leads(g, ops, h) && UsedBefore(g, i, p)
    ensures UsedBefore(h, i, p)
    decreases |ops|
  {
    hide HeapInv, Next, UsedBefore, Reached;
    RunsKeepInvariant(before, g);
    if ops != [] {
      var op := ops[|ops| - 1];
      var r :| Leads(g, ops[..|ops| - 1], r) && SlotsValid(r.slots) && Next(r, op, h);
      UsedNeverFresh(before, g, ops[..|ops| - 1], r, i, p);
      assert HeapInv(r) by { SlotUsed(g, i, p); LeadsKeeps(g, ops[..|ops| - 1], r, i); }
      StepStaysUsed(r, op, h, i, p);
    }
  }

  lemma SlotUsed(g: Heap, i: nat, p: nat)
    requires UsedBefore(g, i, p)
    ensures i < |g.slots| && g.slots[i].Used?
  {
  }

  // ----- A run in which a free block is not found -----

  lemma RunStep(ops: seq<Op>, g: Heap, op: Op, h: Heap)
    requires Reached(ops, g) && SlotsValid(g.slots) && Next(g, op, h)
    ensures Reached(ops + [op], h)
  {
    hide Next, SlotsValid;
    assert (ops + [op])[..|ops + [op]| - 1] == ops;
  }

  function OneArea(a: Area, live: map<nat, nat>): (h: Heap) {
    Heap([Used(1, a)], live)
  }

  lemma OneAreaAlloc(a: Area, live: map<nat, nat>, al: nat, sz: nat)
    requires a.Valid() && a.base > 1 && al < NLISTS && sz < NLISTS
    ensures SlotsValid(OneArea(a, live).slots)
    ensures var r := Alloc(a, al, sz); var h := OneArea(a, live); var q := Request(al, sz, false);
      if r.block.Some? then Next(h, Allocate(q, {0}, r.block), OneArea(r.area, live[r.block.value := sz]))
      else AllocIn(h.slots, {0}, q, 0).1 == None
  {
    hide Alloc, Area.Valid;
    var h := OneArea(a, live);
    assert AllocIn(h.slots, {0}, Request(al, sz, false), 1) == (h.slots, None);
    var r := Alloc(a, al, sz);
    assert h.slots[0 := Used(1, r.area)] == OneArea(r.area, live).slots;
  }

  lemma OneAreaFree(a: Area, live: map<nat, nat>, p: nat)
    requires a.Valid() && a.base > 1 && a.Contains(p) && p in live && Free(a, p).Some?
    ensures SlotsValid(OneArea(a, live).slots)
    ensures Next(OneArea(a, live), Release(p), OneArea(Free(a, p).value, live - {p}))
  {
    hide Free, Area.Valid;
    assert FreedIn(OneArea(a, live).slots, p, 0, OneArea(Free(a, p).value, live - {p}).slots);
  }

  /** Initialisation cuts the frames 1 to 5 into a table page and two pairs. */
  lemma TwoPairsStart()
    ensures TwoPairs().Valid() && InitialArea(TwoPairs(), 1, 6)
    ensures Reached([InitArea(0, 1, 6, TwoPairs())], OneArea(TwoPairs(), map[]))
  {
    hide Exact, Area.TiledIn, Area.FreshBounded, Pow2, Aligned;
    var h0 := Heap([Unused], map[]);
    TwoPairsInitial();
    Pow2Six();
    assert SlotsValid(h0.slots) && Reached([], h0);
    assert Next(h0, InitArea(0, 1, 6, TwoPairs()), OneArea(TwoPairs(), map[]));
    RunStep([], h0, InitArea(0, 1, 6, TwoPairs()), OneArea(TwoPairs(), map[]));
    assert [] + [InitArea(0, 1, 6, TwoPairs())] == [InitArea(0, 1, 6, TwoPairs())];
  }

  lemma Pow2Six()
    ensures 6 < Pow2(NLISTS)
  {
    Pow2Mono(3, NLISTS);
  }

  lemma TwoPairsInitial()
    ensures InitialArea(TwoPairs(), 1, 6)
  {
    hide Exact, Area.TiledIn, Area.FreshBounded, CutMaximal, MaxPlaced;
    TwoPairsValid();
    var e := Area(2, 2, [], seq(NLISTS, _ => []), 0);
    Pow2Mono(5, NLISTS);
    EmptyValid(e);
    ExtendMaximal(e, 1, 6);
    ExtendMaximal(Extended(e, 1), 1, 6);
    EmptyDescending(e.lists);
    ExtendKeeps(e, 1);
    ExtendDescending(e, 1);
    ExtendDescending(Extended(e, 1), 1);
  }

  /** "NULL only when there is not enough free memory" fails on a run from the start: initialise an area of
      two pairs, take one pair, split the other, give the first back. Then a pair is free, and a request for a
      pair gets NULL. */
  lemma AllocIncomplete() returns (h: Heap)
    ensures Reached([InitArea(0, 1, 6, TwoPairs()), Allocate(Request(0, 1, false), {0}, Some(4)),
                     Allocate(Request(0, 0, false), {0}, Some(2)), Release(4)], h)
    ensures |h.slots| == 1 && h.slots[0].Used? && h.slots[0].area.Sized() && h.slots[0].area.FreeBlock(4, 1)
    ensures SlotsValid(h.slots) && AllocIn(h.slots, {0}, Request(1, 1, false), 0).1 == None
  {
    hide Exact, Area.TiledIn, Area.FreshBounded, TwoPairs, Alloc, Free, Next, Reached, SlotsValid, AllocIn, OneArea;
    hide InitialArea, Granted;
    var a0, a1, a2, a3 := TwoPairsRun();
    TwoPairsStart();
    var op0, op1 := InitArea(0, 1, 6, a0), Allocate(Request(0, 1, false), {0}, Some(4));
    var op2 := Allocate(Request(0, 0, false), {0}, Some(2));
    OneAreaAlloc(a0, map[], 0, 1);
    RunStep([op0], OneArea(a0, map[]), op1, OneArea(a1, map[4 := 1]));
    OneAreaAlloc(a1, map[4 := 1], 0, 0);
    RunStep([op0] + [op1], OneArea(a1, map[4 := 1]), op2, OneArea(a2, map[4 := 1, 2 := 0]));
    OneAreaFree(a2, map[4 := 1, 2 := 0], 4);
    h := OneArea(a3, map[4 := 1, 2 := 0] - {4});
    RunStep([op0] + [op1] + [op2], OneArea(a2, map[4 := 1, 2 := 0]), Release(4), h);
    assert [op0] + [op1] + [op2] + [Release(4)] == [op0, op1, op2, Release(4)];
    OneAreaAlloc(a3, map[4 := 1, 2 := 0] - {4}, 1, 1);
    assert h.slots == [Used(1, a3)] by { OneAreaSlots(a3, map[4 := 1, 2 := 0] - {4}); }
  }

  lemma OneAreaSlots(a: Area, live: map<nat, nat>)
    ensures OneArea(a, live).slots == [Used(1, a)]
  {
  }

  /** The areas along that run. */
  lemma TwoPairsRun() returns (a0: Area, a1: Area, a2: Area, a3: Area)
    ensures a0 == TwoPairs() && a0.Valid() && a0.base == 2
    ensures Alloc(a0, 0, 1) == AllocResult(a1, Some(4)) && a1.Valid() && a1.base == 2
    ensures Alloc(a1, 0, 0) == AllocResult(a2, Some(2)) && a2.Valid() && a2.base == 2 && a2.Contains(4)
    ensures Free(a2, 4) == Some(a3) && a3.Valid() && a3.base == 2
    ensures a3.FreeBlock(4, 1) && Alloc(a3, 1, 1).block == None
  {
    hide Exact, Area.TiledIn, Area.FreshBounded, TwoPairs, Alloc, Free;
    a0 := TwoPairs();
    TwoPairsValid();
    TwoPairsTaken();
    a1 := Alloc(a0, 0, 1).area;
    assert a1.lists[1] == [2] by { assert Without([4, 2], 4) == [2]; }
    PairSplit(a1);
    a2 := Alloc(a1, 0, 0).area;
    AllocCorrect(a1, 0, 0);
    FreedBlockMissed(a2, 4, 1);
    a3 := Free(a2, 4).value;
    FreeCorrect(a2, 4);
  }

  ghost predicate AllDirtyFirst(slots: seq<Slot>)
    requires SlotsValid(slots)
  {
    forall i :: 0 <= i < |slots| && slots[i].Used? ==> DirtyFirst(slots[i].area)
  }

  lemma StepDirtyFirst(g: Heap, op: Op, h: Heap)
    requires HeapInv(g) && HeapInv(h) && Next(g, op, h) && AllDirtyFirst(g.slots)
    ensures AllDirtyFirst(h.slots)
  {
    hide AllocIn, Serve, DirtyFirst, Exact, Area.TiledIn, Area.FreshBounded, PageOps.Free, IsLive, SlotsDisjoint;
    match op
    case InitArea(_, _, _, a) => FreshDirtyFirst(a);
    case Allocate(q, allowed, res) =>
      var n := AllocInSpec(g.slots, allowed, q, 0);
      if res.Some? { ServeDirtyFirst(g.slots[n].area, q); }
    case Release(p) =>
      if p != 0 {
        var n: nat :| FreedIn(g.slots, p, n, h.slots);
        FreeDirtyFirst(g.slots[n].area, p);
      }
  }

  /** In every run: on every free list, blocks that were used before come before fresh ones. */
  lemma {:induction false} RunsDirtyFirst(ops: seq<Op>, h: Heap)
    requires Reached(ops, h)
    ensures HeapInv(h) && AllDirtyFirst(h.slots)
    decreases |ops|
  {
    hide HeapInv, Next, AllDirtyFirst;
    RunsKeepInvariant(ops, h);
    if ops == [] {
      NoAreas(h);
    } else {
      var op := ops[|ops| - 1];
      var g :| Reached(ops[..|ops| - 1], g) && SlotsValid(g.slots) && Next(g, op, h);
      RunsDirtyFirst(ops[..|ops| - 1], g);
      StepDirtyFirst(g, op, h);
    }
  }

  lemma NoAreas(h: Heap)
    requires Initial(h) && SlotsValid(h.slots)
    ensures AllDirtyFirst(h.slots)
  {
  }

  /** Area n is allowed, in use, and has a usable block, or a fresh one, of an order that the search reaches. */
  ghost predicate Holds(slots: seq<Slot>, allowed: set<nat>, q: Request, n: nat)
    requires SlotsValid(slots)
  {
    n < |slots| && n in allowed && slots[n].Used? && HasBlock(slots[n].area, q)
  }

  /** In every run: an allocation gets NULL exactly when no allowed area in use has a usable block of an order that
      its search reaches, or a fresh one if fresh memory is asked for; otherwise it gets a block inside the first
      area that has one, and a fresh request gets fresh pages only. */
  lemma AllocationsFind(ops: seq<Op>, h: Heap, op: Op, h': Heap)
    requires Reached(ops, h) && op.Allocate? && SlotsValid(h.slots) && Next(h, op, h')
    ensures op.result.None? <==> forall n: nat :: !Holds(h.slots, op.allowed, op.q, n)
    ensures op.result.Some? ==>
      exists n: nat ::
        && Holds(h.slots, op.allowed, op.q, n) && h.slots[n].area.Contains(op.result.value)
        && (forall m: nat :: m < n ==> !Holds(h.slots, op.allowed, op.q, m))
        && (op.q.isFresh ==>
              forall p :: op.result.value <= p < op.result.value + Pow2(op.q.Order()) ==>
                h.slots[n].area.Contains(p) && IsFresh(h.slots[n].area.At(p)))
  {
    hide AllocIn, Serve, CanServe, HasBlock, Area.Allocated, Area.Usable, SameAllocated, IsFresh, Exact;
    hide Area.TiledIn, Area.FreshBounded, Reached, HeapInv, Pow2;
    RunsDirtyFirst(ops, h);
    var n := AllocInSpec(h.slots, op.allowed, op.q, 0);
    forall m: nat ensures Holds(h.slots, op.allowed, op.q, m) <==> Grants(h.slots, op.allowed, op.q, m) {
      if m < |h.slots| && h.slots[m].Used? { CanServeMeans(h.slots[m].area, op.q); }
    }
    if op.result.Some? {
      var a := h.slots[n].area;
      ServeCorrect(a, op.q);
      AllocFacts(a, Serve(a, op.q).area, op.q.Alignment(), op.q.Order(), op.result.value);
    }
  }

  /** In every run: blocks handed out and not yet returned share no page. */
  lemma LiveNeverOverlap(ops: seq<Op>, h: Heap, p: nat, q: nat, x: nat)
    requires Reached(ops, h) && p in h.live && q in h.live
    requires p <= x < p + Pow2(h.live[p]) && q <= x < q + Pow2(h.live[q])
    ensures p == q
  {
    RunsKeepInvariant(ops, h);
    assert IsLive(h.slots, p, h.live[p]) && IsLive(h.slots, q, h.live[q]);
    var i: nat :| 0 <= i < |h.slots| && h.slots[i].Used? && h.slots[i].area.LiveBlock(p, h.live[p]);
    var j :| 0 <= j < |h.slots| && h.slots[j].Used? && h.slots[j].area.LiveBlock(q, h.live[q]);
    WholeBlock(h.slots[i].area, p, h.live[p]);
    WholeBlock(h.slots[j].area, q, h.live[q]);
    assert InSlot(h.slots[i], x) && InSlot(h.slots[j], x);
    LiveDisjoint(h.slots[i].area, p, h.live[p], q, h.live[q], x);
  }

  lemma LiveFreeable(a: Area, p: nat, k: nat)
    requires a.Valid() && a.LiveBlock(p, k)
    ensures p > 0 && a.Contains(p) && PageOps.Free(a, p).Some?
  {
    hide Exact, Area.TiledIn, Area.FreshBounded, PageOps.Free;
    FreeCorrect(a, p);
  }

  /** In every run: freeing a block that was handed out and not yet returned fires no assert. */
  lemma FreeNeverAsserts(ops: seq<Op>, h: Heap, p: nat)
    requires Reached(ops, h) && p in h.live
    ensures exists h' :: SlotsValid(h.slots) && Next(h, Release(p), h')
  {
    hide Exact, Area.TiledIn, Area.FreshBounded, PageOps.Free, Reached, Aligned, SlotsDisjoint;
    RunsKeepInvariant(ops, h);
    assert IsLive(h.slots, p, h.live[p]);
    var i: nat :| 0 <= i < |h.slots| && h.slots[i].Used? && h.slots[i].area.LiveBlock(p, h.live[p]);
    LiveFreeable(h.slots[i].area, p, h.live[p]);
    var b := PageOps.Free(h.slots[i].area, p).value;
    var h' := Heap(h.slots[i := Used(h.slots[i].start, b)], h.live - {p});
    assert FreedIn(h.slots, p, i, h'.slots);
    assert Next(h, Release(p), h');
  }
}
