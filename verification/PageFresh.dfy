/** page_memalign_order with its fresh flag: memory that was never handed out. */
module PageFresh {
  import opened Basics
  import opened Bits
  import opened Lists
  import opened PageArea
  import opened PageExact
  import opened PageFit
  import opened PageOps

  function Last(l: seq<nat>): (x: nat)
    requires l != []
  {
    l[|l| - 1]
  }

  /** The last block on list k is fresh. */
  ghost predicate EndsFresh(a: Area, k: nat)
    requires a.Sized() && k < NLISTS
  {
    a.lists[k] != [] && a.Contains(Last(a.lists[k])) && IsFresh(a.At(Last(a.lists[k])))
  }

  ghost function FreshOrder(a: Area, j: nat): (r: nat)
    requires a.Sized() && a.maxOrder < NLISTS
    ensures j <= r && (r <= a.maxOrder ==> EndsFresh(a, r))
    ensures forall i :: j <= i < r && i <= a.maxOrder ==> !EndsFresh(a, i)
    decreases NLISTS - j
  {
    if j > a.maxOrder || EndsFresh(a, j) then j else FreshOrder(a, j + 1)
  }

  lemma LastIsBlock(a: Area, k: nat)
    requires a.Valid() && k < NLISTS && a.lists[k] != []
    ensures a.FreeBlock(Last(a.lists[k]), k)
  {
    hide Area.TiledIn, Area.FreshBounded, Aligned;
    assert ExactAt(a.lists[k], k, a.FreeBlocks());
    assert Last(a.lists[k]) in a.lists[k];
    assert (Last(a.lists[k]), k) in a.FreeBlocks();
  }

  /** The block at s of order k leaves its list; its first half goes back as fresh, its second is allocated. */
  function TakeSecond(a: Area, s: nat, k: nat): (b: Area)
    requires a.Sized() && 0 < k < NLISTS && a.Contains(s) && s + Pow2(k) <= a.top
    ensures b.Sized() && b.base == a.base && b.top == a.top
    ensures var n := Pow2(k - 1);
      forall p :: a.Contains(p) ==>
        b.At(p) == if s <= p < s + n then k - 1
                   else if s + n <= p < s + n + n then STATUS_ALLOCATED + k - 1
                   else a.At(p)
  {
    var n := Pow2(k - 1);
    Painted(Painted(a, s, n, k - 1), s + n, n, STATUS_ALLOCATED + k - 1).(
      lists := a.lists[k := Without(a.lists[k], s)][k - 1 := a.lists[k - 1] + [s]])
  }

  ghost function AllocFresh(a: Area, al: nat, sz: nat): (r: AllocResult)
    requires a.Valid() && al < NLISTS && 0 < sz < NLISTS
  {
    var k := FreshOrder(a, (if sz > al then sz else al) + 1);
    if k > a.maxOrder then AllocResult(a, None) else
      var s := Last(a.lists[k]);
      LastIsBlock(a, k);
      var b := SplitDown(a, s, k, sz);
      SplitDownKeeps(a, s, k, sz);
      WholeBlock(b, s, sz);
      AllocResult(TakeSecond(b, s, sz), Some(s + Pow2(sz - 1)))
  }

  lemma FreshSteps(a: Area, al: nat, sz: nat, k: nat)
    requires a.Valid() && al < NLISTS && 0 < sz < NLISTS && k == FreshOrder(a, (if sz > al then sz else al) + 1)
    ensures k > a.maxOrder ==> AllocFresh(a, al, sz) == AllocResult(a, None)
    ensures k <= a.maxOrder ==>
      && sz < k && EndsFresh(a, k)
      && var s := Last(a.lists[k]);
         && a.FreeBlock(s, k)
         && var b := SplitDown(a, s, k, sz);
            && b.Sized() && IsBlock(b, s, sz)
            && AllocFresh(a, al, sz) == AllocResult(TakeSecond(b, s, sz), Some(s + Pow2(sz - 1)))
  {
    hide Exact, Area.TiledIn, Area.FreshBounded, Aligned, SplitDown, TakeSecond, Pow2;
    if k <= a.maxOrder {
      LastIsBlock(a, k);
      var s := Last(a.lists[k]);
      SplitDownKeeps(a, s, k, sz);
      WholeBlock(SplitDown(a, s, k, sz), s, sz);
    }
  }

  // ----- One more split -----

  lemma {:induction false} SplitDownSnoc(a: Area, s: nat, k: nat, sz: nat)
    requires a.Valid() && a.FreeBlock(s, k) && 0 < sz <= k
    ensures var b := SplitDown(a, s, k, sz);
      b.Valid() && b.FreeBlock(s, sz) && IsBlock(b, s, sz) && SplitDown(a, s, k, sz - 1) == Split(b, s)
    decreases k
  {
    hide Exact, Area.TiledIn, Area.FreshBounded, Aligned, SameUse, SplitDown, Split, Pow2;
    WholeBlock(a, s, k);
    SplitDownStep(a, s, k, sz - 1);
    if sz == k {
      SplitDownEnd(a, s, k, sz);
      SplitDownEnd(Split(a, s), s, k - 1, sz - 1);
    } else {
      SplitDownStep(a, s, k, sz);
      SplitDownSnoc(Split(a, s), s, k - 1, sz);
    }
  }

  lemma WithoutLast(l: seq<nat>, s: nat, h: nat)
    requires h !in l && s != h
    ensures Without(l + [s, h], h) == l + [s]
  {
    hide IndexOf;
    var b := l + [s, h];
    assert b[|l| + 1] == h;
    assert forall i :: 0 <= i < |b| && b[i] == h ==> i == |l| + 1;
    assert b[..|l| + 1] == l + [s] && b[|l| + 2..] == [];
  }

  ghost predicate SecondTaken(b: Area, s: nat, k: nat, c: Area, h: nat)
    requires b.Sized() && IsBlock(b, s, k) && 0 < k
  {
    c.Sized() && IsBlock(c, h, k - 1) && TakeSecond(b, s, k) == Take(c, h, k - 1)
  }

  /** When the block is not alone on its list, taking its second half is splitting it and taking that half. */
  lemma SecondIsTake(b: Area, s: nat, k: nat, h: nat) returns (c: Area)
    requires b.Sized() && IsBlock(b, s, k) && 0 < k && IsFresh(b.At(s)) && h == s + Pow2(k - 1)
    requires Without(b.lists[k], s) != [] && b.Valid() && b.FreeBlock(s, k)
    ensures c == Split(b, s) && SecondTaken(b, s, k, c, h) && c.Valid() && c.FreeBlock(h, k - 1)
  {
    hide Exact, Area.TiledIn, Area.FreshBounded, Aligned, Pow2, Without, Split, Take, TakeSecond;
    SplitKeeps(b, s, k);
    c := Split(b, s);
    WholeBlock(c, h, k - 1);
    SecondLists(b, s, k);
    SplitRest(b, s, k);
    HalfInside(s, k);
    SecondFields(b, s, k, c, h);
    var d, e := TakeSecond(b, s, k), Take(c, h, k - 1);
    forall i | 0 <= i < |b.states| ensures d.states[i] == e.states[i] {
      SplitByte(b, s, k, b.base + i);
      TakeEffect(c, h, k - 1, b.base + i, 0);
      assert d.At(b.base + i) == d.states[i] && e.At(b.base + i) == e.states[i];
    }
    assert d.states == e.states;
  }

  lemma SplitRest(b: Area, s: nat, k: nat)
    requires b.Sized() && IsBlock(b, s, k) && 0 < k && Without(b.lists[k], s) != []
    ensures Split(b, s).base == b.base && Split(b, s).top == b.top && Split(b, s).maxOrder == b.maxOrder
  {
    hide Pow2, Without;
  }

  lemma SecondLists(b: Area, s: nat, k: nat)
    requires b.Valid() && b.FreeBlock(s, k) && IsBlock(b, s, k) && 0 < k && IsFresh(b.At(s))
    ensures var c, h := Split(b, s), s + Pow2(k - 1);
      Without(c.lists[k - 1], h) == b.lists[k - 1] + [s] && c.lists[k] == Without(b.lists[k], s)
      && forall j :: 0 <= j < NLISTS && j != k && j != k - 1 ==> c.lists[j] == b.lists[j]
  {
    hide Area.TiledIn, Area.FreshBounded, Pow2, Without, Split;
    SplitListsAre(b, s, k);
    var h, l := s + Pow2(k - 1), b.lists[k - 1];
    HalfInside(s, k);
    assert b.At(h) == b.At(s);
    assert ExactAt(l, k - 1, b.FreeBlocks()) && (h, k - 1) !in b.FreeBlocks();
    WithoutLast(l, s, h);
  }

  lemma HalfInside(s: nat, k: nat)
    requires k > 0
    ensures s < s + Pow2(k - 1) < s + Pow2(k) && Pow2(k) == 2 * Pow2(k - 1)
  {
  }

  lemma SecondFields(b: Area, s: nat, k: nat, c: Area, h: nat)
    requires b.Sized() && IsBlock(b, s, k) && 0 < k && h == s + Pow2(k - 1)
    requires c.Sized() && IsBlock(c, h, k - 1) && c.base == b.base && c.top == b.top && c.maxOrder == b.maxOrder
    ensures var d, e := TakeSecond(b, s, k), Take(c, h, k - 1);
      && d.Sized() && e.Sized() && d.base == e.base == b.base && d.top == e.top == b.top && d.maxOrder == e.maxOrder
      && d.lists == b.lists[k := Without(b.lists[k], s)][k - 1 := b.lists[k - 1] + [s]]
      && e.lists == c.lists[k - 1 := Without(c.lists[k - 1], h)]
  {
    hide Pow2, Without;
    HalfInside(s, k);
  }

  // ----- The fresh allocation as a split and a take -----

  /** The last of a sequence of splits leaves the sibling on the list. */
  lemma SiblingListed(a: Area, s: nat, k: nat, sz: nat)
    requires a.Valid() && a.FreeBlock(s, k) && 0 < sz < k && IsFresh(a.At(s))
    ensures SplitDown(a, s, k, sz).Sized() && Without(SplitDown(a, s, k, sz).lists[sz], s) != []
  {
    hide Exact, Area.TiledIn, Area.FreshBounded, Aligned, SplitDown, Pow2, Without;
    WholeBlock(a, s, k);
    SplitDownLists(a, s, k, sz, sz);
    OneList(a, s, k, sz);
    WithoutNew(a.lists[sz], s, s + Pow2(sz));
  }

  lemma StillFresh(a: Area, s: nat, k: nat, sz: nat)
    requires a.Valid() && a.FreeBlock(s, k) && sz <= k && IsFresh(a.At(s))
    ensures SplitDown(a, s, k, sz).Sized() && SplitDown(a, s, k, sz).Contains(s)
    ensures IsFresh(SplitDown(a, s, k, sz).At(s))
  {
    hide Exact, Area.TiledIn, Area.FreshBounded, Aligned, SplitDown, Pow2;
    SplitDownByte(a, s, k, sz, s, 0);
  }

  /** So a fresh allocation takes the second part, of order sz - 1, of a fresh block split down to that order. */
  lemma FreshIsTake(a: Area, al: nat, sz: nat) returns (s: nat, k: nat, h: nat, c: Area)
    requires a.Valid() && al < NLISTS && 0 < sz < NLISTS && AllocFresh(a, al, sz).block.Some?
    ensures al < k && sz < k <= a.maxOrder && a.FreeBlock(s, k) && IsFresh(a.At(s)) && h == s + Pow2(sz - 1)
    ensures c == SplitDown(a, s, k, sz - 1)
    ensures c.Valid() && SameUse(a, c) && SameAllocated(a, c) && c.FreeBlock(h, sz - 1) && IsBlock(c, h, sz - 1)
    ensures AllocFresh(a, al, sz) == AllocResult(Take(c, h, sz - 1), Some(h))
  {
    hide Exact, Area.TiledIn, Area.FreshBounded, Aligned, SameUse, SplitDown, Pow2, Without, TakeSecond, Take, Split;
    k := FreshOrder(a, (if sz > al then sz else al) + 1);
    LastIsBlock(a, k);
    s := Last(a.lists[k]);
    h := s + Pow2(sz - 1);
    SplitDownKeeps(a, s, k, sz - 1);
    SplitDownSnoc(a, s, k, sz);
    SiblingListed(a, s, k, sz);
    StillFresh(a, s, k, sz);
    c := SecondIsTake(SplitDown(a, s, k, sz), s, sz, h);
  }

  /** A fresh allocation keeps the invariant; what it returns was wholly fresh, and exactly its pages become
      allocated: 2^(sz - 1) of them, half of what was asked for. */
  lemma FreshCorrect(a: Area, al: nat, sz: nat)
    requires a.Valid() && al < NLISTS && 0 < sz < NLISTS
    ensures var r := AllocFresh(a, al, sz);
      && r.area.Valid()
      && (r.block.None? ==> r.area == a)
      && (r.block.Some? ==>
            && Granted(a, r.area, sz - 1, sz - 1, r.block.value)
            && forall p :: r.block.value <= p < r.block.value + Pow2(sz - 1) ==> IsFresh(a.At(p)))
  {
    hide Exact, Area.TiledIn, Area.FreshBounded, Aligned, SameUse, SameAllocated, SplitDown, Pow2, Take, AllocFresh;
    hide Area.Allocated, Area.Usable;
    if AllocFresh(a, al, sz).block.Some? {
      var s, k, h, c := FreshIsTake(a, al, sz);
      TakeKeeps(c, h, sz - 1);
      TakeGrants(a, c, sz - 1, sz - 1, h);
      FreshPages(a, s, k, sz);
    } else {
      NoFresh(a, al, sz);
    }
  }

  lemma NoFresh(a: Area, al: nat, sz: nat)
    requires a.Valid() && al < NLISTS && 0 < sz < NLISTS
    ensures AllocFresh(a, al, sz).block.None? ==> AllocFresh(a, al, sz).area == a
    ensures AllocFresh(a, al, sz).block.None? <==> FreshOrder(a, (if sz > al then sz else al) + 1) > a.maxOrder
  {
    hide Exact, Area.TiledIn, Area.FreshBounded, Aligned, SplitDown, TakeSecond;
  }

  lemma FreshPages(a: Area, s: nat, k: nat, sz: nat)
    requires a.Valid() && a.FreeBlock(s, k) && 0 < sz < k && IsFresh(a.At(s))
    ensures var h := s + Pow2(sz - 1);
      forall p :: h <= p < h + Pow2(sz - 1) ==> a.Contains(p) && IsFresh(a.At(p))
  {
    hide Area.TiledIn, Area.FreshBounded, Aligned, Pow2;
    WholeBlock(a, s, k);
    HalfInside(s, sz);
    Pow2Mono(sz, k);
  }

  /** "A block whose alignment and size are at least the parameter values": the size never is, and the alignment is
      exactly when it is smaller than the order asked for. */
  lemma FreshTooSmall(a: Area, al: nat, sz: nat)
    requires a.Valid() && al < NLISTS && 0 < sz < NLISTS && AllocFresh(a, al, sz).block.Some?
    ensures var r := AllocFresh(a, al, sz); var h := r.block.value;
      && r.area.Sized() && r.area.LiveBlock(h, sz - 1) && !r.area.LiveBlock(h, sz)
      && (Aligned(h, al) <==> al < sz)
  {
    hide Exact, Area.TiledIn, Area.FreshBounded, Aligned, SameUse, SameAllocated, SplitDown, Pow2, Take, AllocFresh;
    hide Area.Allocated, Area.Usable;
    var s, k, h, c := FreshIsTake(a, al, sz);
    FreshCorrect(a, al, sz);
    HalfInside(s, sz);
    AlignedLower(s, k, sz);
    HalvesAligned(s, sz - 1, h);
    if al < sz {
      AlignedLower(h, sz - 1, al);
    } else if Aligned(h, al) {
      AlignedLower(h, al, sz);
    }
  }

  // ----- When it succeeds -----

  /** A usable block of order k that is fresh. */
  ghost predicate FreshBlock(a: Area, s: nat, k: nat)
    requires a.Sized()
  {
    a.FreeBlock(s, k) && IsFresh(a.At(s))
  }

  /** With used blocks in front of fresh ones, the last block tells whether there is a fresh one. */
  lemma LastIsFreshest(a: Area, k: nat)
    requires a.Valid() && DirtyFirst(a) && k < NLISTS
    ensures EndsFresh(a, k) <==> exists s: nat :: FreshBlock(a, s, k)
  {
    hide Area.TiledIn, Area.FreshBounded, Aligned;
    assert ExactAt(a.lists[k], k, a.FreeBlocks());
    assert DirtyFirstOn(a, a.lists[k]);
    if EndsFresh(a, k) {
      LastIsBlock(a, k);
      assert FreshBlock(a, Last(a.lists[k]), k);
    }
    if s: nat :| FreshBlock(a, s, k) {
      assert (s, k) in a.FreeBlocks();
      var i :| 0 <= i < |a.lists[k]| && a.lists[k][i] == s;
    }
  }

  /** NULL exactly when no fresh block has a searched order: above both orders asked for, up to max_order. */
  lemma FreshFails(a: Area, al: nat, sz: nat)
    requires a.Valid() && al < NLISTS && 0 < sz < NLISTS && DirtyFirst(a)
    ensures AllocFresh(a, al, sz).block.None? <==>
            forall s: nat, k: nat :: al < k && sz < k <= a.maxOrder ==> !FreshBlock(a, s, k)
  {
    hide Exact, Area.TiledIn, Area.FreshBounded, AllocFresh, DirtyFirst, EndsFresh, FreshBlock;
    NoFresh(a, al, sz);
    var i := FreshOrder(a, (if sz > al then sz else al) + 1);
    if i <= a.maxOrder {
      LastIsFreshest(a, i);
    } else {
      forall s: nat, k: nat | al < k && sz < k <= a.maxOrder ensures !FreshBlock(a, s, k) {
        LastIsFreshest(a, k);
      }
    }
  }

  /** It keeps blocks that were used before in front of fresh ones. */
  lemma FreshKeepsOrder(a: Area, al: nat, sz: nat)
    requires a.Valid() && al < NLISTS && 0 < sz < NLISTS && DirtyFirst(a)
    ensures AllocFresh(a, al, sz).area.Sized() && DirtyFirst(AllocFresh(a, al, sz).area)
  {
    hide Exact, Area.TiledIn, Area.FreshBounded, AllocFresh, DirtyFirst, SplitDown, Take, SameUse, Pow2;
    if AllocFresh(a, al, sz).block.Some? {
      var s, k, h, c := FreshIsTake(a, al, sz);
      SplitDownDirtyFirst(a, s, k, sz - 1);
      TakeDirtyFirst(c, h, sz - 1);
    } else {
      NoFresh(a, al, sz);
    }
  }

  // ----- Requests of either kind -----

  /** The orders asked for as alignment and size, and whether it is for fresh memory. A fresh request for a single
      page makes the order negative, so there is none. */
  datatype Request = Request(al: nat, sz: nat, isFresh: bool) {
    predicate Ok() {
      al < NLISTS && sz < NLISTS && (isFresh ==> sz > 0)
    }

    /** The order of the block that is granted, and the alignment that can be relied on. */
    function Order(): (k: nat)
      requires Ok()
    {
      if isFresh then sz - 1 else sz
    }

    function Alignment(): (k: nat)
      requires Ok()
    {
      if isFresh then sz - 1 else al
    }
  }

  ghost function Serve(a: Area, q: Request): (r: AllocResult)
    requires a.Valid() && q.Ok()
  {
    if q.isFresh then AllocFresh(a, q.al, q.sz) else Alloc(a, q.al, q.sz)
  }

  lemma ServeCorrect(a: Area, q: Request)
    requires a.Valid() && q.Ok()
    ensures var r := Serve(a, q);
      && r.area.Valid()
      && (r.block.None? ==> r.area == a)
      && (r.block.Some? ==>
            && Granted(a, r.area, q.Alignment(), q.Order(), r.block.value)
            && (q.isFresh ==>
                  forall p :: r.block.value <= p < r.block.value + Pow2(q.Order()) ==> IsFresh(a.At(p))))
  {
    hide Alloc, AllocFresh, Granted, Exact, Area.TiledIn, Area.FreshBounded, Pow2;
    if q.isFresh { FreshCorrect(a, q.al, q.sz); } else { AllocCorrect(a, q.al, q.sz); }
  }

  /** The search reaches a usable block, or a list that ends with a fresh one. */
  ghost predicate CanServe(a: Area, q: Request)
    requires a.Valid()
  {
    if q.isFresh then exists k: nat :: q.al < k && q.sz < k <= a.maxOrder && EndsFresh(a, k)
    else CanGrant(a, q.al, q.sz)
  }

  lemma ServeFails(a: Area, q: Request)
    requires a.Valid() && q.Ok()
    ensures Serve(a, q).block.Some? <==> CanServe(a, q)
  {
    hide Alloc, AllocFresh, Exact, Area.TiledIn, Area.FreshBounded, EndsFresh, CanGrant;
    if q.isFresh { NoFresh(a, q.al, q.sz); } else { AllocFailsExactly(a, q.al, q.sz); }
  }

  /** There is a usable block, or a fresh one, of an order that the search reaches. */
  ghost predicate HasBlock(a: Area, q: Request)
    requires a.Sized()
  {
    if q.isFresh then exists s: nat, k: nat :: q.al < k && q.sz < k <= a.maxOrder && FreshBlock(a, s, k)
    else CanGrant(a, q.al, q.sz)
  }

  lemma CanServeMeans(a: Area, q: Request)
    requires a.Valid() && DirtyFirst(a)
    ensures CanServe(a, q) <==> HasBlock(a, q)
  {
    hide Exact, Area.TiledIn, Area.FreshBounded, DirtyFirst, EndsFresh, FreshBlock, CanGrant;
    if q.isFresh {
      if CanServe(a, q) {
        var k: nat :| q.al < k && q.sz < k <= a.maxOrder && EndsFresh(a, k);
        LastIsFreshest(a, k);
      }
      if HasBlock(a, q) {
        var s: nat, k: nat :| q.al < k && q.sz < k <= a.maxOrder && FreshBlock(a, s, k);
        LastIsFreshest(a, k);
      }
    }
  }

  lemma {:induction false} SplitDownSameFresh(a: Area, s: nat, k: nat, sz: nat, p: nat)
    requires a.Valid() && a.FreeBlock(s, k) && sz <= k && a.Contains(p)
    ensures var b := SplitDown(a, s, k, sz);
      b.Sized() && b.base == a.base && b.top == a.top && IsFresh(b.At(p)) == IsFresh(a.At(p))
    decreases k
  {
    hide Exact, Area.TiledIn, Area.FreshBounded, Aligned, Split, SplitDown, SameUse, Pow2, IsFresh;
    if sz == k {
      SplitDownEnd(a, s, k, sz);
    } else {
      SplitDownStep(a, s, k, sz);
      SplitSameFresh(a, s, k, p);
      SplitDownSameFresh(Split(a, s), s, k - 1, sz, p);
    }
  }

  /** No allocation makes a page fresh. */
  lemma ServeStaysUsed(a: Area, q: Request, p: nat)
    requires a.Valid() && q.Ok() && a.Contains(p) && !IsFresh(a.At(p))
    ensures Serve(a, q).area.Sized() && Serve(a, q).area.Contains(p) && !IsFresh(Serve(a, q).area.At(p))
  {
    hide Exact, Area.TiledIn, Area.FreshBounded, Aligned, SplitDown, SameUse, SameAllocated, Take, AllocFresh, Pow2;
    if q.isFresh {
      if AllocFresh(a, q.al, q.sz).block.Some? {
        var s, k, h, c := FreshIsTake(a, q.al, q.sz);
        SplitDownSameFresh(a, s, k, q.sz - 1, p);
        TakeEffect(c, h, q.sz - 1, p, 0);
      } else {
        NoFresh(a, q.al, q.sz);
      }
    } else {
      AllocStaysUsed(a, q.al, q.sz, p);
    }
  }

  lemma AllocStaysUsed(a: Area, al: nat, sz: nat, p: nat)
    requires a.Valid() && al < NLISTS && sz < NLISTS && a.Contains(p) && !IsFresh(a.At(p))
    ensures var b := Alloc(a, al, sz).area; b.Sized() && b.Contains(p) && !IsFresh(b.At(p))
  {
    hide Exact, Area.TiledIn, Area.FreshBounded, Aligned, SplitDown, SameUse, SameAllocated, Take, Pow2;
    var k := FirstOrder(a, if sz > al then sz else al);
    if k <= a.maxOrder {
      FirstIsBlock(a, k);
      var s := a.lists[k][0];
      SplitDownKeeps(a, s, k, sz);
      WholeBlock(SplitDown(a, s, k, sz), s, sz);
      SplitDownSameFresh(a, s, k, sz, p);
      TakeEffect(SplitDown(a, s, k, sz), s, sz, p, 0);
    }
  }

  lemma ServeDirtyFirst(a: Area, q: Request)
    requires a.Valid() && q.Ok() && DirtyFirst(a)
    ensures Serve(a, q).area.Sized() && DirtyFirst(Serve(a, q).area)
  {
    hide Alloc, AllocFresh, DirtyFirst, Exact, Area.TiledIn, Area.FreshBounded;
    if q.isFresh { FreshKeepsOrder(a, q.al, q.sz); } else { AllocDirtyFirst(a, q.al, q.sz); }
  }
}
