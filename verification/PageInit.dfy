/** Initialisation of a memory area (lib/alloc_page.c, _page_alloc_init_area), on values. */
module PageInit {
  import opened Bits
  import opened PageArea

  /** Pages set aside for the state bytes of an area of n pages. */
  function TableSize(n: nat): (t: nat) {
    (n + PAGE_SIZE) / (PAGE_SIZE + 1)
  }

  /** The table is large enough for one byte per remaining page, and no smaller table would be. */
  lemma TableSizeLeast(n: nat, t: nat)
    ensures t * PAGE_SIZE >= n - t <==> t >= TableSize(n)
    ensures n > 4 ==> 1 <= TableSize(n) < n
  {
  }

  /** The area grown upwards by one fresh block of order k. */
  function Extended(a: Area, k: nat): (b: Area)
    requires a.Sized() && k < NLISTS
    ensures b.Sized() && b.base == a.base && b.top == a.top + Pow2(k)
    ensures forall p :: b.Contains(p) ==> b.At(p) == if p < a.top then a.At(p) else k
    ensures b.lists == a.lists[k := [a.top] + a.lists[k]]
    ensures b.maxOrder == if k > a.maxOrder then k else a.maxOrder
  {
    Area(a.base, a.top + Pow2(k), a.states + seq(Pow2(k), _ => k), a.lists[k := [a.top] + a.lists[k]],
         if k > a.maxOrder then k else a.maxOrder)
  }

  lemma ExtendTiled(a: Area, k: nat)
    requires a.Valid() && k < NLISTS && Aligned(a.top, k)
    ensures Extended(a, k).TiledIn(a.base, a.top + Pow2(k))
  {
    hide Exact, Extended;
    var b := Extended(a, k);
    forall p | a.base <= p < a.top ensures b.BlockWithin(p, a.base, a.top) {
      assert a.BlockWithin(p, a.base, a.top);
    }
    OneBlock(b, a.top, k, k);
    JoinTiled(b, a.base, a.top, b.top);
  }

  lemma ExtendExact(a: Area, k: nat)
    requires a.Valid() && k < NLISTS && Aligned(a.top, k)
    ensures Exact(Extended(a, k).lists, Extended(a, k).FreeBlocks())
  {
    hide Extended, Area.TiledIn;
    var b, s := Extended(a, k), a.top;
    forall x: nat, j: nat ensures (x, j) in b.FreeBlocks() <==> (x, j) in a.FreeBlocks() + iset{(s, k)} {
      if s <= x < b.top && Aligned(x, k) {
        OnlyStartAligned(s, k, x);
      }
    }
    assert b.FreeBlocks() == a.FreeBlocks() + iset{(s, k)};
    ExactWith(a.lists[k], k, a.FreeBlocks(), s);
    forall j | 0 <= j < NLISTS ensures ExactAt(b.lists[j], j, b.FreeBlocks()) {
      if j != k {
        ExactOther(a.lists[j], j, a.FreeBlocks(), b.FreeBlocks());
      }
    }
  }

  lemma ExtendKeeps(a: Area, k: nat)
    requires a.Valid() && k < NLISTS && Aligned(a.top, k) && a.top + Pow2(k) < Pow2(NLISTS)
    ensures Extended(a, k).Valid()
  {
    ExtendTiled(a, k);
    ExtendExact(a, k);
  }

  /** All pages are fresh, and every block is as large as its start and the end `top` allow. */
  ghost predicate CutMaximal(a: Area, top: nat)
    requires a.Sized()
  {
    && (forall p :: a.Contains(p) ==> IsFresh(a.At(p)))
    && (forall s: nat :: a.Contains(s) && Aligned(s, OrderOf(a.At(s))) ==>
          !(Aligned(s, OrderOf(a.At(s)) + 1) && s + Pow2(OrderOf(a.At(s)) + 1) <= top))
  }

  /** max_order is the largest order placed (0 while nothing is placed). */
  ghost predicate MaxPlaced(a: Area)
    requires a.Sized()
  {
    && (forall p :: a.Contains(p) ==> OrderOf(a.At(p)) <= a.maxOrder)
    && (a.base < a.top ==> exists p :: a.Contains(p) && OrderOf(a.At(p)) == a.maxOrder)
  }

  lemma ExtendMaximal(a: Area, k: nat, top: nat)
    requires a.Sized() && k < NLISTS && Aligned(a.top, k) && CutMaximal(a, top) && MaxPlaced(a)
    requires a.base == a.top ==> a.maxOrder == 0
    requires !(Aligned(a.top, k + 1) && a.top + Pow2(k + 1) <= top)
    ensures CutMaximal(Extended(a, k), top) && MaxPlaced(Extended(a, k))
  {
    hide Extended;
    var b := Extended(a, k);
    forall s: nat | b.Contains(s) && Aligned(s, OrderOf(b.At(s)))
      ensures !(Aligned(s, OrderOf(b.At(s)) + 1) && s + Pow2(OrderOf(b.At(s)) + 1) <= top)
    {
      if s >= a.top {
        OnlyStartAligned(a.top, k, s);
      }
    }
    if a.base < a.top {
      var p :| a.Contains(p) && OrderOf(a.At(p)) == a.maxOrder;
      assert OrderOf(b.At(if k > a.maxOrder then a.top else p)) == b.maxOrder;
    } else {
      assert OrderOf(b.At(a.top)) == b.maxOrder;
    }
  }

  /** Every list holds its blocks from the highest address down. */
  ghost predicate Descending(ls: seq<seq<nat>>) {
    forall k, i, j :: 0 <= k < |ls| && 0 <= i < j < |ls[k]| ==> ls[k][i] > ls[k][j]
  }

  lemma ExtendDescending(a: Area, k: nat)
    requires a.Valid() && k < NLISTS && Descending(a.lists)
    ensures Descending(Extended(a, k).lists)
  {
    hide Extended, Area.TiledIn, Area.FreshBounded;
    var l := a.lists[k];
    assert ExactAt(l, k, a.FreeBlocks());
    forall i | 0 <= i < |l| ensures l[i] < a.top {
      assert l[i] in l && (l[i], k) in a.FreeBlocks();
    }
    forall j, m | 0 <= j < m < |[a.top] + l| ensures ([a.top] + l)[j] > ([a.top] + l)[m] {
      assert ([a.top] + l)[m] == l[m - 1];
    }
  }

  lemma EmptyDescending(ls: seq<seq<nat>>)
    requires forall k :: 0 <= k < |ls| ==> ls[k] == []
    ensures Descending(ls)
  {
  }

  lemma EmptyValid(a: Area)
    requires a.Sized() && a.base == a.top && 1 <= a.base < Pow2(NLISTS) && a.maxOrder == 0
    requires forall k :: 0 <= k < NLISTS ==> a.lists[k] == []
    ensures a.Valid() && MaxPlaced(a) && forall top :: CutMaximal(a, top)
  {
    forall k | 0 <= k < NLISTS ensures ExactAt(a.lists[k], k, a.FreeBlocks()) {
    }
  }
}
