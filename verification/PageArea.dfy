/** The value model of one memory area of the page allocator (lib/alloc_page.c): a state byte per
    page and one free list per block order, and the invariant that makes the two views agree. */
module PageArea {
  import opened Basics
  import opened Bits
  import opened Lists

  const PAGE_SHIFT: nat := 12
  const PAGE_SIZE: nat := 4096
  const NLISTS: nat := 52

  // A state byte is a status (fresh, free, allocated, special) in its top two bits over an order.
  const STATUS_FREE: nat := 0x40
  const STATUS_ALLOCATED: nat := 0x80
  const STATUS_SPECIAL: nat := 0xc0

  function OrderOf(b: nat): (k: nat) { b % 64 }
  predicate IsFresh(b: nat) { b / 64 == 0 }
  predicate IsUsable(b: nat) { b / 64 <= 1 }
  predicate IsAllocated(b: nat) { b / 64 == 2 }

  datatype Area = Area(base: nat, top: nat, states: seq<nat>, lists: seq<seq<nat>>, maxOrder: nat) {

    predicate Sized() {
      base <= top && |states| == top - base && |lists| == NLISTS
    }

    predicate Contains(p: int) {
      base <= p < top
    }

    function At(p: int): (b: nat)
      requires Sized() && Contains(p)
    {
      states[p - base]
    }

    /** The block that page p belongs to is determined by its state byte alone. */
    function Start(p: int): (s: nat)
      requires Sized() && Contains(p)
    {
      AlignDown(p, OrderOf(At(p)))
    }

    /** The block of p lies inside [lo, hi) and all its pages carry the same byte. */
    ghost predicate BlockWithin(p: int, lo: nat, hi: nat)
      requires Sized() && Contains(p) && base <= lo && hi <= top
    {
      var b := At(p);
      && b < STATUS_SPECIAL && OrderOf(b) < NLISTS
      && lo <= Start(p) && Start(p) + Pow2(OrderOf(b)) <= hi
      && forall q :: Start(p) <= q < Start(p) + Pow2(OrderOf(b)) ==> At(q) == b
    }

    /** [lo, hi) is tiled exactly by naturally aligned power-of-two blocks with one byte each. */
    ghost predicate TiledIn(lo: nat, hi: nat)
      requires Sized() && base <= lo && hi <= top
    {
      forall p :: lo <= p < hi ==> BlockWithin(p, lo, hi)
    }

    /** x is the first page of a fresh or free block of order k. */
    predicate FreeBlock(x: int, k: nat)
      requires Sized()
    {
      Contains(x) && IsUsable(At(x)) && OrderOf(At(x)) == k && Aligned(x, k)
    }

    /** x is the first page of an allocated block of order k. */
    predicate LiveBlock(x: int, k: nat)
      requires Sized()
    {
      Contains(x) && IsAllocated(At(x)) && OrderOf(At(x)) == k && Aligned(x, k)
    }

    /** The usable blocks, as pairs of first page and order. */
    ghost function FreeBlocks(): (r: iset<(nat, nat)>)
      requires Sized()
    {
      iset b: (nat, nat) | FreeBlock(b.0, b.1)
    }

    /** No fresh block is larger than max_order says. (Freed blocks can be.) */
    ghost predicate FreshBounded()
      requires Sized()
    {
      forall p :: Contains(p) && IsFresh(At(p)) ==> OrderOf(At(p)) <= maxOrder
    }

    ghost predicate Valid() {
      && Sized() && base >= 1 && top < Pow2(NLISTS)
      && TiledIn(base, top)
      && Exact(lists, FreeBlocks())
      && maxOrder < NLISTS && FreshBounded()
    }

    ghost function Allocated(): (r: set<nat>)
      requires Sized()
    {
      set p | base <= p < top && IsAllocated(At(p))
    }

    ghost function Usable(): (r: set<nat>)
      requires Sized()
    {
      set p | base <= p < top && IsUsable(At(p))
    }
  }

  /** l holds exactly the blocks of order k in free, once each. */
  ghost predicate ExactAt(l: seq<nat>, k: nat, free: iset<(nat, nat)>) {
    Distinct(l) && forall x :: x in l <==> (x, k) in free
  }

  /** Every free list holds exactly the blocks of its order, once each. */
  ghost predicate Exact(ls: seq<seq<nat>>, free: iset<(nat, nat)>) {
    |ls| == NLISTS && forall k :: 0 <= k < NLISTS ==> ExactAt(ls[k], k, free)
  }

  lemma ExactWithout(l: seq<nat>, k: nat, free: iset<(nat, nat)>, x: nat)
    requires ExactAt(l, k, free)
    ensures ExactAt(Without(l, x), k, free - iset{(x, k)})
  {
    WithoutMembers(l, x);
  }

  lemma ExactWith(l: seq<nat>, k: nat, free: iset<(nat, nat)>, x: nat)
    requires ExactAt(l, k, free) && (x, k) !in free
    ensures ExactAt([x] + l, k, free + iset{(x, k)})
    ensures ExactAt(l + [x], k, free + iset{(x, k)})
  {
    assert x !in l;
  }

  /** Only the blocks of order k matter to list k. */
  lemma ExactOther(l: seq<nat>, k: nat, free: iset<(nat, nat)>, free': iset<(nat, nat)>)
    requires ExactAt(l, k, free) && forall x :: (x, k) in free' <==> (x, k) in free
    ensures ExactAt(l, k, free')
  {
  }

  ghost function Pages(lo: nat, n: nat): (r: set<nat>)
    ensures |r| == n && forall p :: p in r <==> lo <= p < lo + n
  {
    if n == 0 then {} else Pages(lo, n - 1) + {lo + n - 1}
  }

  // ----- Tiling -----

  /** Every page lies in the block it names, and all pages of that block name the same block. */
  lemma SameBlock(a: Area, p: nat, lo: nat, hi: nat, q: nat)
    requires a.Sized() && a.base <= lo && hi <= a.top && a.Contains(p)
    requires a.BlockWithin(p, lo, hi)
    requires a.Start(p) <= q < a.Start(p) + Pow2(OrderOf(a.At(p)))
    ensures a.At(q) == a.At(p) && a.Start(q) == a.Start(p)
  {
    var k := OrderOf(a.At(p));
    AlignDownAligned(p, k);
    AlignDownUnique(q, k, a.Start(p));
  }

  /** The block of a page outside a union of whole blocks lies outside it. */
  lemma BlockOutside(a: Area, lo: nat, hi: nat, p: nat, q: nat)
    requires a.Sized() && a.base <= lo <= hi <= a.top && a.Contains(p) && !(lo <= p < hi)
    requires a.BlockWithin(p, a.base, a.top) && a.TiledIn(lo, hi)
    requires a.Start(p) <= q < a.Start(p) + Pow2(OrderOf(a.At(p)))
    ensures !(lo <= q < hi) && a.At(q) == a.At(p)
  {
    if lo <= q < hi {
      assert a.BlockWithin(q, lo, hi);
      SameBlock(a, p, a.base, a.top, q);
      assert false;
    }
  }

  /** Repainting a union of whole blocks keeps the tiling of the rest. */
  lemma Repaint(a: Area, b: Area, lo: nat, hi: nat)
    requires a.Sized() && b.Sized() && a.base == b.base && a.top == b.top
    requires a.base <= lo <= hi <= a.top
    requires a.TiledIn(a.base, a.top) && a.TiledIn(lo, hi) && b.TiledIn(lo, hi)
    requires forall p :: a.Contains(p) && !(lo <= p < hi) ==> b.At(p) == a.At(p)
    ensures b.TiledIn(b.base, b.top)
  {
    forall p | b.base <= p < b.top ensures b.BlockWithin(p, b.base, b.top) {
      if lo <= p < hi {
        assert b.BlockWithin(p, lo, hi);
      } else {
        assert a.BlockWithin(p, a.base, a.top);
        forall q | a.Start(p) <= q < a.Start(p) + Pow2(OrderOf(a.At(p)))
          ensures b.At(q) == b.At(p)
        {
          BlockOutside(a, lo, hi, p, q);
        }
      }
    }
  }

  /** A block painted with one byte of its own order is tiled. */
  lemma OneBlock(a: Area, s: nat, k: nat, v: nat)
    requires a.Sized() && a.base <= s && s + Pow2(k) <= a.top
    requires v < STATUS_SPECIAL && OrderOf(v) == k < NLISTS && Aligned(s, k)
    requires forall p :: s <= p < s + Pow2(k) ==> a.At(p) == v
    ensures a.TiledIn(s, s + Pow2(k))
  {
    var hi := s + Pow2(k);
    forall p | s <= p < hi ensures a.BlockWithin(p, s, hi) {
      AlignDownUnique(p, k, s);
    }
  }

  lemma JoinTiled(a: Area, lo: nat, mid: nat, hi: nat)
    requires a.Sized() && a.base <= lo <= mid <= hi <= a.top
    requires a.TiledIn(lo, mid) && a.TiledIn(mid, hi)
    ensures a.TiledIn(lo, hi)
  {
    forall p | lo <= p < hi ensures a.BlockWithin(p, lo, hi) {
      if p < mid {
        assert a.BlockWithin(p, lo, mid);
      } else {
        assert a.BlockWithin(p, mid, hi);
      }
    }
  }

  /** s starts a block of order k. */
  ghost predicate IsBlock(a: Area, s: nat, k: nat)
    requires a.Sized()
  {
    && a.Contains(s) && s + Pow2(k) <= a.top
    && OrderOf(a.At(s)) == k < NLISTS && a.At(s) < STATUS_SPECIAL && Aligned(s, k)
    && forall p :: s <= p < s + Pow2(k) ==> a.At(p) == a.At(s)
  }

  /** In a tiled area an aligned page starts its block. */
  lemma WholeBlock(a: Area, s: nat, k: nat)
    requires a.Sized() && a.TiledIn(a.base, a.top)
    requires a.Contains(s) && OrderOf(a.At(s)) == k && Aligned(s, k)
    ensures IsBlock(a, s, k)
  {
    assert a.BlockWithin(s, a.base, a.top);
    AlignDownUnique(s, k, s);
  }

  lemma OnlyStartAligned(s: nat, k: nat, x: nat)
    requires Aligned(s, k) && Aligned(x, k) && s <= x < s + Pow2(k)
    ensures x == s
  {
    AlignDownUnique(x, k, s);
    AlignDownUnique(x, k, x);
  }

  function Fill(st: seq<nat>, i: nat, n: nat, v: nat): (r: seq<nat>)
    requires i + n <= |st|
    ensures |r| == |st|
    ensures forall j :: 0 <= j < |st| ==> r[j] == if i <= j < i + n then v else st[j]
  {
    st[..i] + seq(n, _ => v) + st[i + n..]
  }

  /** The area with the n pages from s repainted. */
  function Painted(a: Area, s: nat, n: nat, v: nat): (b: Area)
    requires a.Sized() && a.base <= s && s + n <= a.top
    ensures b == a.(states := b.states) && b.Sized()
    ensures forall p :: a.Contains(p) ==> b.At(p) == if s <= p < s + n then v else a.At(p)
  {
    a.(states := Fill(a.states, s - a.base, n, v))
  }

  // ----- split -----

  function Split(a: Area, s: nat): (b: Area)
    requires a.Sized() && a.Contains(s)
    requires 0 < OrderOf(a.At(s)) < NLISTS && s + Pow2(OrderOf(a.At(s))) <= a.top
    ensures b.Sized() && b.base == a.base && b.top == a.top
  {
    var m := a.At(s);
    var k := OrderOf(m);
    var ls := SplitLists(a.lists, k, s, s + Pow2(k - 1), IsFresh(m));
    Painted(a, s, Pow2(k), m - 1).(
      lists := ls,
      maxOrder := if k == a.maxOrder && ls[k] == [] then k - 1 else a.maxOrder)
  }

  /** Block s leaves list k; its halves s and h go to the end of the next list if fresh, else to the front. */
  function SplitLists(ls: seq<seq<nat>>, k: nat, s: nat, h: nat, fresh': bool): (r: seq<seq<nat>>)
    requires |ls| == NLISTS && 0 < k < NLISTS
  {
    ls[k := Without(ls[k], s)][k - 1 := if fresh' then ls[k - 1] + [s, h] else [h, s] + ls[k - 1]]
  }

  lemma SplitListsExact(ls: seq<seq<nat>>, free: iset<(nat, nat)>, free': iset<(nat, nat)>,
                        k: nat, s: nat, h: nat, fresh': bool, ls': seq<seq<nat>>)
    requires |ls| == NLISTS && Exact(ls, free) && 0 < k < NLISTS && s != h
    requires forall j :: ((s, j) in free ==> j == k) && (h, j) !in free
    requires free' == free - iset{(s, k)} + iset{(s, k - 1), (h, k - 1)}
    requires ls' == SplitLists(ls, k, s, h, fresh')
    ensures Exact(ls', free')
  {
    hide ExactAt, Without;
    assert ExactAt(ls[k], k, free) && ExactAt(ls[k - 1], k - 1, free);
    ExactWithout(ls[k], k, free, s);
    ExactWith(ls[k - 1], k - 1, free, s);
    var f1 := free + iset{(s, k - 1)};
    ExactWith(ls[k - 1] + [s], k - 1, f1, h);
    ExactWith([s] + ls[k - 1], k - 1, f1, h);
    assert ls[k - 1] + [s, h] == ls[k - 1] + [s] + [h];
    assert [h, s] + ls[k - 1] == [h] + ([s] + ls[k - 1]);
    forall j | 0 <= j < NLISTS ensures ExactAt(ls'[j], j, free') {
      assert ExactAt(ls[j], j, free);
      if j == k {
        ExactOther(ls'[j], j, free - iset{(s, k)}, free');
      } else if j == k - 1 {
        ExactOther(ls'[j], j, f1 + iset{(h, k - 1)}, free');
      } else {
        ExactOther(ls[j], j, free, free');
      }
    }
  }

  lemma SplitTiled(a: Area, s: nat, k: nat)
    requires a.Sized() && a.TiledIn(a.base, a.top) && IsBlock(a, s, k) && 0 < k
    ensures Split(a, s).TiledIn(a.base, a.top)
  {
    hide Area.TiledIn;
    var b, h, v := Split(a, s), s + Pow2(k - 1), a.At(s) - 1;
    AlignedHalf(s, k - 1);
    OneBlock(a, s, k, a.At(s));
    OneBlock(b, s, k - 1, v);
    OneBlock(b, h, k - 1, v);
    JoinTiled(b, s, h, s + Pow2(k));
    Repaint(a, b, s, s + Pow2(k));
  }

  /** Where the free blocks are after a split. */
  lemma SplitBlocks(a: Area, s: nat, k: nat, x: nat, j: nat)
    requires a.Sized() && IsBlock(a, s, k) && 0 < k && IsUsable(a.At(s))
    ensures var b, h := Split(a, s), s + Pow2(k - 1);
      b.FreeBlock(x, j) <==> (j == k - 1 && (x == s || x == h)) || (x != s && a.FreeBlock(x, j))
  {
    var b := Split(a, s);
    HalvesAligned(s, k - 1, x);
    if a.Contains(x) {
      assert b.At(x) == if s <= x < s + Pow2(k) then a.At(s) - 1 else a.At(x);
    }
  }

  /** The pages of an aligned block of order k+1 that are aligned to order k, or to order k+1. */
  lemma HalvesAligned(s: nat, k: nat, x: nat)
    requires Aligned(s, k + 1)
    ensures s <= x < s + Pow2(k + 1) ==> (Aligned(x, k) <==> x == s || x == s + Pow2(k))
    ensures s <= x < s + Pow2(k + 1) ==> (Aligned(x, k + 1) <==> x == s)
  {
    var h := s + Pow2(k);
    AlignedHalf(s, k);
    if s <= x < s + Pow2(k + 1) && Aligned(x, k) {
      OnlyStartAligned(if x < h then s else h, k, x);
    }
    if s <= x < s + Pow2(k + 1) && Aligned(x, k + 1) {
      OnlyStartAligned(s, k + 1, x);
    }
  }

  lemma SplitFresh(a: Area, s: nat, k: nat, p: nat)
    requires a.Valid() && IsBlock(a, s, k) && 0 < k && IsUsable(a.At(s))
    requires a.Contains(p) && IsFresh(Split(a, s).At(p))
    ensures OrderOf(Split(a, s).At(p)) <= Split(a, s).maxOrder
  {
    WithoutMembers(a.lists[k], s);
    if !(s <= p < s + Pow2(k)) && OrderOf(a.At(p)) == k {
      // p lies in another fresh block of order k, which is still on the list
      assert a.BlockWithin(p, a.base, a.top);
      var x := a.Start(p);
      AlignDownAligned(p, k);
      assert a.At(x) == a.At(p);
      assert (x, k) in a.FreeBlocks();
      assert x in Without(a.lists[k], s);
    }
  }

  lemma SplitFreeBlocks(a: Area, s: nat, k: nat)
    requires a.Sized() && IsBlock(a, s, k) && 0 < k && IsUsable(a.At(s))
    ensures var h := s + Pow2(k - 1);
      && Split(a, s).FreeBlocks() == a.FreeBlocks() - iset{(s, k)} + iset{(s, k - 1), (h, k - 1)}
      && forall j :: ((s, j) in a.FreeBlocks() ==> j == k) && (h, j) !in a.FreeBlocks()
  {
    hide Split;
    var b, h := Split(a, s), s + Pow2(k - 1);
    var r := a.FreeBlocks() - iset{(s, k)} + iset{(s, k - 1), (h, k - 1)};
    forall x: nat, j: nat ensures (x, j) in b.FreeBlocks() <==> (x, j) in r {
      SplitBlocks(a, s, k, x, j);
    }
    HalvesAligned(s, k - 1, h);
    assert a.At(h) == a.At(s);
  }

  lemma SplitExact(a: Area, s: nat, k: nat)
    requires a.Sized() && Exact(a.lists, a.FreeBlocks()) && IsBlock(a, s, k) && 0 < k && IsUsable(a.At(s))
    ensures Exact(Split(a, s).lists, Split(a, s).FreeBlocks())
  {
    hide Exact;
    SplitFreeBlocks(a, s, k);
    var b, h := Split(a, s), s + Pow2(k - 1);
    SplitListsExact(a.lists, a.FreeBlocks(), b.FreeBlocks(), k, s, h, IsFresh(a.At(s)), b.lists);
  }

  /** No page changes between allocated and usable. */
  ghost predicate SameUse(a: Area, b: Area)
    requires a.Sized() && b.Sized()
  {
    && a.base == b.base && a.top == b.top
    && forall p :: a.Contains(p) ==>
         IsAllocated(a.At(p)) == IsAllocated(b.At(p)) && IsUsable(a.At(p)) == IsUsable(b.At(p))
  }

  /** Splitting a usable block keeps the invariant, gives its two halves, and touches no other page. */
  lemma SplitKeeps(a: Area, s: nat, k: nat)
    requires a.Valid() && 0 < k && a.FreeBlock(s, k)
    ensures IsBlock(a, s, k)
    ensures var b := Split(a, s);
      && b.Valid()
      && b.FreeBlock(s, k - 1) && b.FreeBlock(s + Pow2(k - 1), k - 1)
      && SameUse(a, b)
      && forall p :: a.Contains(p) && !(s <= p < s + Pow2(k)) ==> b.At(p) == a.At(p)
  {
    hide Exact, Area.TiledIn;
    WholeBlock(a, s, k);
    var b, h := Split(a, s), s + Pow2(k - 1);
    SplitTiled(a, s, k);
    SplitExact(a, s, k);
    SplitBlocks(a, s, k, s, k - 1);
    SplitBlocks(a, s, k, h, k - 1);
    forall p | b.Contains(p) && IsFresh(b.At(p)) ensures OrderOf(b.At(p)) <= b.maxOrder {
      SplitFresh(a, s, k, p);
    }
  }

  // ----- Recolouring a whole block -----

  lemma RecolourTiled(a: Area, b: Area, s: nat, k: nat, v: nat)
    requires a.Sized() && b.Sized() && a.TiledIn(a.base, a.top) && IsBlock(a, s, k)
    requires v < STATUS_SPECIAL && OrderOf(v) == k
    requires b.states == Painted(a, s, Pow2(k), v).states && b.base == a.base && b.top == a.top
    ensures b.TiledIn(a.base, a.top)
  {
    OneBlock(a, s, k, a.At(s));
    OneBlock(b, s, k, v);
    Repaint(a, b, s, s + Pow2(k));
  }

  lemma RecolourBlocks(a: Area, b: Area, s: nat, k: nat, v: nat, x: nat, j: nat)
    requires a.Sized() && b.Sized() && IsBlock(a, s, k) && OrderOf(v) == k
    requires b.states == Painted(a, s, Pow2(k), v).states && b.base == a.base && b.top == a.top
    ensures b.FreeBlock(x, j) <==> if x == s then j == k && IsUsable(v) else a.FreeBlock(x, j)
  {
    if s <= x < s + Pow2(k) && Aligned(x, k) {
      OnlyStartAligned(s, k, x);
    }
  }

  lemma FreshKept(a: Area, b: Area, s: nat, n: nat, v: nat)
    requires a.Sized() && b.Sized() && a.FreshBounded() && a.Contains(s) && s + n <= a.top
    requires b.states == Painted(a, s, n, v).states && b.base == a.base && b.top == a.top
    requires a.maxOrder <= b.maxOrder && (IsFresh(v) ==> OrderOf(v) <= b.maxOrder)
    ensures b.FreshBounded()
  {
    forall p | b.Contains(p) && IsFresh(b.At(p)) ensures OrderOf(b.At(p)) <= b.maxOrder {
      assert b.At(p) == if s <= p < s + n then v else a.At(p);
    }
  }

  // ----- Taking a block off its list, and giving it back -----

  /** The end of page_memalign_order: unlink the block and mark its pages allocated. */
  function Take(a: Area, s: nat, k: nat): (b: Area)
    requires a.Sized() && k < NLISTS && a.Contains(s) && s + Pow2(k) <= a.top
  {
    Painted(a, s, Pow2(k), STATUS_ALLOCATED + k).(lists := a.lists[k := Without(a.lists[k], s)])
  }

  lemma TakeKeeps(a: Area, s: nat, k: nat)
    requires a.Valid() && a.FreeBlock(s, k)
    ensures IsBlock(a, s, k)
    ensures Take(a, s, k).Valid()
  {
    WholeBlock(a, s, k);
    var b, v := Take(a, s, k), STATUS_ALLOCATED + k;
    RecolourTiled(a, b, s, k, v);
    WithoutMembers(a.lists[k], s);
    forall x: nat, j: nat ensures (x, j) in b.FreeBlocks() <==> (x, j) in a.FreeBlocks() - iset{(s, k)} {
      RecolourBlocks(a, b, s, k, v, x, j);
    }
    assert b.FreeBlocks() == a.FreeBlocks() - iset{(s, k)};
    FreshKept(a, b, s, Pow2(k), v);
  }

  /** The first half of _free_pages: mark the pages free and put the block on its list. */
  function Release(a: Area, s: nat, k: nat): (b: Area)
    requires a.Sized() && k < NLISTS && a.Contains(s) && s + Pow2(k) <= a.top
  {
    Painted(a, s, Pow2(k), STATUS_FREE + k).(lists := a.lists[k := [s] + a.lists[k]])
  }

  lemma ReleaseKeeps(a: Area, s: nat, k: nat)
    requires a.Valid() && a.LiveBlock(s, k)
    ensures IsBlock(a, s, k)
    ensures Release(a, s, k).Valid()
  {
    WholeBlock(a, s, k);
    var b, v := Release(a, s, k), STATUS_FREE + k;
    RecolourTiled(a, b, s, k, v);
    forall x: nat, j: nat ensures (x, j) in b.FreeBlocks() <==> (x, j) in a.FreeBlocks() + iset{(s, k)} {
      RecolourBlocks(a, b, s, k, v, x, j);
    }
    assert b.FreeBlocks() == a.FreeBlocks() + iset{(s, k)};
    assert (s, k) !in a.FreeBlocks();
    FreshKept(a, b, s, Pow2(k), v);
  }

  // ----- coalesce -----

  /** What coalesce tests before it merges the blocks of order k at s and s + 2^k. */
  predicate Mergeable(a: Area, s: nat, k: nat)
    requires a.Sized()
  {
    var t := s + Pow2(k);
    a.Contains(s) && a.Contains(t + Pow2(k) - 1) && a.At(s) == k && a.At(t) == k
  }

  function Merge(a: Area, s: nat, k: nat): (b: Area)
    requires a.Sized() && k + 1 < NLISTS && Mergeable(a, s, k)
    ensures b.Sized() && b.base == a.base && b.top == a.top
    ensures b.lists == MergeLists(a.lists, k, s, s + Pow2(k))
  {
    Painted(a, s, Pow2(k + 1), k + 1).(
      lists := MergeLists(a.lists, k, s, s + Pow2(k)),
      maxOrder := if k + 1 > a.maxOrder then k + 1 else a.maxOrder)
  }

  lemma MergeTiled(a: Area, s: nat, k: nat)
    requires a.Sized() && a.TiledIn(a.base, a.top) && k + 1 < NLISTS
    requires Mergeable(a, s, k) && Aligned(s, k + 1) && IsBlock(a, s, k) && IsBlock(a, s + Pow2(k), k)
    ensures Merge(a, s, k).TiledIn(a.base, a.top)
  {
    hide Area.TiledIn;
    var b, t := Merge(a, s, k), s + Pow2(k);
    OneBlock(a, s, k, k);
    OneBlock(a, t, k, k);
    JoinTiled(a, s, t, t + Pow2(k));
    OneBlock(b, s, k + 1, k + 1);
    Repaint(a, b, s, t + Pow2(k));
  }

  lemma MergeBlocks(a: Area, s: nat, k: nat, x: nat, j: nat)
    requires a.Sized() && k + 1 < NLISTS
    requires Mergeable(a, s, k) && Aligned(s, k + 1) && IsBlock(a, s, k) && IsBlock(a, s + Pow2(k), k)
    ensures Merge(a, s, k).FreeBlock(x, j) <==>
            (j == k + 1 && x == s) || (x != s && x != s + Pow2(k) && a.FreeBlock(x, j))
  {
    var b := Merge(a, s, k);
    HalvesAligned(s, k, x);
    if a.Contains(x) {
      assert b.At(x) == if s <= x < s + Pow2(k + 1) then k + 1 else a.At(x);
      assert s <= x < s + Pow2(k + 1) ==> a.At(x) == k;
    }
  }

  /** Both halves leave list k, the second one first; the merged block goes to the front of the next list. */
  function MergeLists(ls: seq<seq<nat>>, k: nat, s: nat, t: nat): (r: seq<seq<nat>>)
    requires |ls| == NLISTS && k + 1 < NLISTS
  {
    ls[k := Without(Without(ls[k], t), s)][k + 1 := [s] + ls[k + 1]]
  }

  lemma MergeListsExact(ls: seq<seq<nat>>, free: iset<(nat, nat)>, free': iset<(nat, nat)>,
                        k: nat, s: nat, t: nat, ls': seq<seq<nat>>)
    requires |ls| == NLISTS && Exact(ls, free) && k + 1 < NLISTS && s != t
    requires forall j :: ((s, j) in free ==> j == k) && ((t, j) in free ==> j == k)
    requires free' == free - iset{(s, k), (t, k)} + iset{(s, k + 1)} && ls' == MergeLists(ls, k, s, t)
    ensures Exact(ls', free')
  {
    hide ExactAt, Without;
    var f1 := free - iset{(t, k)};
    assert ExactAt(ls[k], k, free) && ExactAt(ls[k + 1], k + 1, free);
    ExactWithout(ls[k], k, free, t);
    ExactWithout(Without(ls[k], t), k, f1, s);
    ExactWith(ls[k + 1], k + 1, free, s);
    forall j | 0 <= j < NLISTS ensures ExactAt(ls'[j], j, free') {
      assert ExactAt(ls[j], j, free);
      if j == k {
        ExactOther(ls'[j], j, f1 - iset{(s, k)}, free');
      } else if j == k + 1 {
        ExactOther(ls'[j], j, free + iset{(s, k + 1)}, free');
      } else {
        ExactOther(ls[j], j, free, free');
      }
    }
  }

  lemma MergeFreeBlocks(a: Area, s: nat, k: nat)
    requires a.Sized() && k + 1 < NLISTS
    requires Mergeable(a, s, k) && Aligned(s, k + 1) && IsBlock(a, s, k) && IsBlock(a, s + Pow2(k), k)
    ensures var t := s + Pow2(k);
      && Merge(a, s, k).FreeBlocks() == a.FreeBlocks() - iset{(s, k), (t, k)} + iset{(s, k + 1)}
      && forall j :: ((s, j) in a.FreeBlocks() ==> j == k) && ((t, j) in a.FreeBlocks() ==> j == k)
  {
    hide Merge;
    var b, t := Merge(a, s, k), s + Pow2(k);
    var r := a.FreeBlocks() - iset{(s, k), (t, k)} + iset{(s, k + 1)};
    forall x: nat, j: nat ensures (x, j) in b.FreeBlocks() <==> (x, j) in r {
      MergeBlocks(a, s, k, x, j);
    }
  }

  lemma MergeExact(a: Area, s: nat, k: nat)
    requires a.Sized() && k + 1 < NLISTS && Exact(a.lists, a.FreeBlocks())
    requires Mergeable(a, s, k) && Aligned(s, k + 1) && IsBlock(a, s, k) && IsBlock(a, s + Pow2(k), k)
    ensures Exact(Merge(a, s, k).lists, Merge(a, s, k).FreeBlocks())
  {
    hide Exact, Merge, IsBlock, Aligned;
    var b, t := Merge(a, s, k), s + Pow2(k);
    MergeFreeBlocks(a, s, k);
    MergeListsExact(a.lists, a.FreeBlocks(), b.FreeBlocks(), k, s, t, b.lists);
  }

  lemma MergeUse(a: Area, s: nat, k: nat)
    requires a.Sized() && k + 1 < NLISTS
    requires Mergeable(a, s, k) && IsBlock(a, s, k) && IsBlock(a, s + Pow2(k), k)
    ensures SameUse(a, Merge(a, s, k))
  {
    var b := Merge(a, s, k);
    forall p | a.Contains(p)
      ensures IsAllocated(a.At(p)) == IsAllocated(b.At(p)) && IsUsable(a.At(p)) == IsUsable(b.At(p))
    {
      assert b.At(p) == if s <= p < s + Pow2(k + 1) then k + 1 else a.At(p);
    }
  }

  /** A merge of a true buddy pair keeps the invariant. */
  lemma MergeKeeps(a: Area, s: nat, k: nat)
    requires a.Valid() && k + 1 < NLISTS && Mergeable(a, s, k) && Aligned(s, k + 1)
    ensures IsBlock(a, s, k) && IsBlock(a, s + Pow2(k), k)
    ensures Merge(a, s, k).Valid()
    ensures SameUse(a, Merge(a, s, k)) && Merge(a, s, k).FreeBlock(s, k + 1)
  {
    hide Exact, Area.TiledIn;
    AlignedHalf(s, k);
    WholeBlock(a, s, k);
    WholeBlock(a, s + Pow2(k), k);
    MergeTiled(a, s, k);
    MergeExact(a, s, k);
    MergeUse(a, s, k);
    FreshKept(a, Merge(a, s, k), s, Pow2(k + 1), k + 1);
  }

  /** A merge of neighbours that are not buddies breaks it. */
  lemma MergeBreaks(a: Area, s: nat, k: nat)
    requires a.Sized() && a.TiledIn(a.base, a.top) && k + 1 < NLISTS
    requires Mergeable(a, s, k) && Aligned(s, k) && !Aligned(s, k + 1)
    ensures !Merge(a, s, k).TiledIn(a.base, a.top)
  {
    hide Exact, Area.FreshBounded, Aligned, AlignDown;
    var b := Merge(a, s, k);
    AlignedOdd(s, k);
    var r := s - Pow2(k);
    AlignDownUnique(s, k + 1, r);
    assert b.At(s) == k + 1;
    if b.BlockWithin(s, b.base, b.top) {
      assert b.At(r) == k + 1 && a.At(r) == b.At(r);
      WholeBlock(a, r, k + 1);
    }
  }
}
