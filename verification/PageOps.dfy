/** Allocation and freeing in one area, as functions on its value, and what they promise. */
module PageOps {
  import opened Basics
  import opened Bits
  import opened PageArea

  // ----- page_memalign_order without the fresh flag -----

  /** The least order from j on whose list is not empty; above max_order when there is none. */
  function FirstOrder(a: Area, j: nat): (r: nat)
    requires a.Sized() && a.maxOrder < NLISTS
    ensures j <= r && (r <= a.maxOrder ==> a.lists[r] != [])
    ensures forall i :: j <= i < r && i <= a.maxOrder ==> a.lists[i] == []
    decreases NLISTS - j
  {
    if j > a.maxOrder || a.lists[j] != [] then j else FirstOrder(a, j + 1)
  }

  lemma FirstIsBlock(a: Area, k: nat)
    requires a.Valid() && k < NLISTS && a.lists[k] != []
    ensures a.FreeBlock(a.lists[k][0], k)
  {
    assert ExactAt(a.lists[k], k, a.FreeBlocks());
    assert (a.lists[k][0], k) in a.FreeBlocks();
  }

  /** Splits the block at s, of order k, until its first part has order sz. */
  ghost function SplitDown(a: Area, s: nat, k: nat, sz: nat): (b: Area)
    requires a.Valid() && a.FreeBlock(s, k)
    decreases k
  {
    if k <= sz then a else
      SplitKeeps(a, s, k);
      SplitDown(Split(a, s), s, k - 1, sz)
  }

  lemma {:induction false} SplitDownKeeps(a: Area, s: nat, k: nat, sz: nat)
    requires a.Valid() && a.FreeBlock(s, k) && sz <= k
    ensures var b := SplitDown(a, s, k, sz);
      b.Valid() && b.FreeBlock(s, sz) && SameUse(a, b) && SameAllocated(a, b)
    decreases k
  {
    hide Exact, Split, Area.TiledIn;
    if sz < k {
      SplitKeeps(a, s, k);
      SplitDownKeeps(Split(a, s), s, k - 1, sz);
    }
  }

  /** Allocated pages keep their state byte. */
  ghost predicate SameAllocated(a: Area, b: Area)
    requires a.Sized() && b.Sized()
  {
    && a.base == b.base && a.top == b.top
    && forall p :: a.Contains(p) && IsAllocated(a.At(p)) ==> b.At(p) == a.At(p)
  }

  datatype AllocResult = AllocResult(area: Area, block: Option<nat>)

  ghost function Alloc(a: Area, al: nat, sz: nat): (r: AllocResult)
    requires a.Valid() && al < NLISTS && sz < NLISTS
  {
    var k := FirstOrder(a, if sz > al then sz else al);
    if k > a.maxOrder then AllocResult(a, None) else
      var s := a.lists[k][0];
      assert (s, k) in a.FreeBlocks();
      var b := SplitDown(a, s, k, sz);
      SplitDownKeeps(a, s, k, sz);
      WholeBlock(b, s, sz);
      AllocResult(Take(b, s, sz), Some(s))
  }

  /** What a successful allocation of 2^sz pages at s promises its caller and everyone else. */
  ghost predicate Granted(a: Area, b: Area, al: nat, sz: nat, s: nat)
    requires a.Sized() && b.Sized()
  {
    && a.base == b.base && a.top == b.top
    && Aligned(s, al) && Aligned(s, sz)
    && a.base <= s && s + Pow2(sz) <= a.top
    && (forall p :: s <= p < s + Pow2(sz) ==> IsUsable(a.At(p)))
    && b.LiveBlock(s, sz)
    && b.Allocated() == a.Allocated() + Pages(s, Pow2(sz))
    && b.Usable() == a.Usable() - Pages(s, Pow2(sz))
    && SameAllocated(a, b)
  }

  /** Allocation keeps the invariant; what it returns is aligned both ways, was wholly usable,
      and no live block changes. A failed allocation changes nothing. */
  lemma AllocCorrect(a: Area, al: nat, sz: nat)
    requires a.Valid() && al < NLISTS && sz < NLISTS
    ensures var r := Alloc(a, al, sz);
      && r.area.Valid()
      && (r.block.None? ==> r.area == a)
      && (r.block.Some? ==> Granted(a, r.area, al, sz, r.block.value))
  {
    var k := FirstOrder(a, if sz > al then sz else al);
    if k <= a.maxOrder {
      var s := a.lists[k][0];
      assert (s, k) in a.FreeBlocks();
      SplitDownKeeps(a, s, k, sz);
      var b := SplitDown(a, s, k, sz);
      TakeKeeps(b, s, sz);
      AlignedLower(s, k, al);
      TakeGrants(a, b, al, sz, s);
    }
  }

  /** Changing the use of the n pages from s, and of no other page, moves exactly those pages. */
  lemma UseMoves(a: Area, b: Area, s: nat, n: nat, taken: bool)
    requires a.Sized() && b.Sized() && a.base == b.base && a.top == b.top && a.base <= s && s + n <= a.top
    requires forall p :: a.Contains(p) && !(s <= p < s + n) ==>
      IsAllocated(b.At(p)) == IsAllocated(a.At(p)) && IsUsable(b.At(p)) == IsUsable(a.At(p))
    requires forall p :: s <= p < s + n ==> IsAllocated(b.At(p)) == taken && IsUsable(b.At(p)) == !taken
    ensures b.Allocated() == if taken then a.Allocated() + Pages(s, n) else a.Allocated() - Pages(s, n)
    ensures b.Usable() == if taken then a.Usable() - Pages(s, n) else a.Usable() + Pages(s, n)
  {
    hide IsAllocated, IsUsable, Pages;
    forall p ensures p in b.Allocated() <==> if s <= p < s + n then taken else p in a.Allocated() {
    }
    forall p ensures p in b.Usable() <==> if s <= p < s + n then !taken else p in a.Usable() {
    }
  }

  lemma TakeGrants(a: Area, b: Area, al: nat, sz: nat, s: nat)
    requires a.Sized() && b.Sized() && IsBlock(b, s, sz) && IsUsable(b.At(s))
    requires SameUse(a, b) && SameAllocated(a, b) && Aligned(s, al)
    ensures Granted(a, Take(b, s, sz), al, sz, s)
  {
    hide Area.Allocated, Area.Usable, Pages;
    var c, n := Take(b, s, sz), Pow2(sz);
    forall p | a.Contains(p) ensures c.At(p) == if s <= p < s + n then STATUS_ALLOCATED + sz else b.At(p) {
    }
    UseMoves(a, c, s, n, true);
  }

  /** NULL is returned exactly when no usable block of a searched order exists: the search stops at
      max_order, which freeing never raises. */
  lemma AllocFails(a: Area, al: nat, sz: nat)
    requires a.Valid() && al < NLISTS && sz < NLISTS
    ensures Alloc(a, al, sz).block.None? <==>
            forall s: nat, k :: al <= k && sz <= k <= a.maxOrder ==> !a.FreeBlock(s, k)
  {
    var j := if sz > al then sz else al;
    var i := FirstOrder(a, j);
    if i <= a.maxOrder {
      assert (a.lists[i][0], i) in a.FreeBlocks();
    } else {
      forall s: nat, k | al <= k && sz <= k <= a.maxOrder ensures !a.FreeBlock(s, k) {
        assert ExactAt(a.lists[k], k, a.FreeBlocks());
        assert (s, k) !in a.FreeBlocks();
      }
    }
  }

  // ----- _free_pages -----

  /** The block that _free_pages looks at next to the one at s: the pair it hands to coalesce. */
  function PairStart(s: nat, k: nat): (r: nat)
    requires Aligned(s, k)
    ensures Aligned(r, k + 1) && (s == r || s == r + Pow2(k))
  {
    if Aligned(s, k + 1) then s else AlignedOdd(s, k); s - Pow2(k)
  }

  /** None when one of the asserts of _free_pages fires. */
  ghost function Free(a: Area, s: nat): (r: Option<Area>)
    requires a.Valid()
  {
    if !a.Contains(s) || !a.LiveBlock(s, OrderOf(a.At(s))) then None
    else
      ReleaseKeeps(a, s, OrderOf(a.At(s)));
      Some(Release(a, s, OrderOf(a.At(s))))
  }

  /** A just-freed block carries the free bit, so coalesce always refuses the pair it is in. */
  lemma FreedNeverMerges(a: Area, s: nat, k: nat)
    requires a.Valid() && a.LiveBlock(s, k) && IsBlock(a, s, k)
    ensures !Mergeable(Release(a, s, k), PairStart(s, k), k)
  {
    assert Release(a, s, k).At(s) == STATUS_FREE + k;
  }

  lemma ReleaseReturns(a: Area, s: nat, k: nat)
    requires a.Sized() && IsBlock(a, s, k)
    ensures var b, n := Release(a, s, k), Pow2(k);
      && b.Sized() && b.base == a.base && b.top == a.top
      && b.Allocated() == a.Allocated() - Pages(s, n)
      && b.Usable() == a.Usable() + Pages(s, n)
      && forall p :: a.Contains(p) && p !in Pages(s, n) ==> b.At(p) == a.At(p)
  {
    hide Area.Allocated, Area.Usable, Pages;
    var b, n := Release(a, s, k), Pow2(k);
    forall p | a.Contains(p) ensures b.At(p) == if s <= p < s + n then STATUS_FREE + k else a.At(p) {
    }
    UseMoves(a, b, s, n, false);
  }

  /** Freeing accepts exactly the live blocks; it returns exactly their pages and keeps all others. */
  lemma FreeCorrect(a: Area, s: nat)
    requires a.Valid()
    ensures Free(a, s).Some? <==> exists k :: a.LiveBlock(s, k)
    ensures Free(a, s).Some? ==>
      var b, k := Free(a, s).value, OrderOf(a.At(s));
      && b.Valid() && b.base == a.base && b.top == a.top
      && b.Allocated() == a.Allocated() - Pages(s, Pow2(k))
      && b.Usable() == a.Usable() + Pages(s, Pow2(k))
      && forall p :: a.Contains(p) && p !in Pages(s, Pow2(k)) ==> b.At(p) == a.At(p)
  {
    hide Exact, Area.Allocated, Area.Usable, Pages, Area.TiledIn;
    if Free(a, s).Some? {
      var k := OrderOf(a.At(s));
      assert a.LiveBlock(s, k);
      ReleaseKeeps(a, s, k);
      ReleaseReturns(a, s, k);
    }
  }

  // ----- split and coalesce undo each other -----

  /** Splitting a fresh block and coalescing its halves restores every state byte and max_order,
      and with the state bytes the membership of every free list. */
  lemma SplitThenMerge(a: Area, s: nat, k: nat)
    requires a.Valid() && 0 < k && a.FreeBlock(s, k) && IsFresh(a.At(s))
    ensures IsBlock(a, s, k) && Mergeable(Split(a, s), s, k - 1)
    ensures var c := Merge(Split(a, s), s, k - 1);
      && c.Valid()
      && c.states == a.states && c.maxOrder == a.maxOrder && c.base == a.base && c.top == a.top
      && forall j, x :: 0 <= j < NLISTS ==> (x in c.lists[j] <==> x in a.lists[j])
  {
    hide Exact, Area.TiledIn, Split, Merge, SameUse, Aligned;
    SplitKeeps(a, s, k);
    SplitMergeStates(a, s, k);
    MergeKeeps(Split(a, s), s, k - 1);
    SameStatesSameLists(a, Merge(Split(a, s), s, k - 1));
  }

  lemma SplitMergeStates(a: Area, s: nat, k: nat)
    requires a.Sized() && IsBlock(a, s, k) && 0 < k && IsFresh(a.At(s)) && k <= a.maxOrder
    ensures Mergeable(Split(a, s), s, k - 1)
    ensures var c := Merge(Split(a, s), s, k - 1); c.states == a.states && c.maxOrder == a.maxOrder
  {
    hide Aligned, SplitLists, MergeLists;
    var b, h := Split(a, s), s + Pow2(k - 1);
    assert b.At(s) == k - 1 && b.At(h) == k - 1;
    RepaintRestores(a, b, Merge(b, s, k - 1), s, Pow2(k), k);
  }

  lemma RepaintRestores(a: Area, b: Area, c: Area, s: nat, n: nat, v: nat)
    requires a.Sized() && b.Sized() && c.Sized() && a.base <= s && s + n <= a.top
    requires a.base == b.base == c.base && a.top == b.top == c.top
    requires forall p :: s <= p < s + n ==> a.At(p) == v
    requires forall p :: a.Contains(p) && !(s <= p < s + n) ==> b.At(p) == a.At(p)
    requires c.states == Painted(b, s, n, v).states
    ensures c.states == a.states
  {
    forall i | 0 <= i < |a.states| ensures c.states[i] == a.states[i] {
      assert c.At(a.base + i) == a.At(a.base + i);
    }
  }

  lemma SameStatesSameLists(a: Area, c: Area)
    requires a.Valid() && c.Valid() && a.states == c.states && a.base == c.base && a.top == c.top
    ensures forall j, x :: 0 <= j < NLISTS ==> (x in c.lists[j] <==> x in a.lists[j])
  {
    hide Area.TiledIn, Aligned;
    assert a.FreeBlocks() == c.FreeBlocks();
    forall j, x | 0 <= j < NLISTS ensures x in c.lists[j] <==> x in a.lists[j] {
      assert ExactAt(a.lists[j], j, a.FreeBlocks());
      assert ExactAt(c.lists[j], j, c.FreeBlocks());
    }
  }
}
