/** One memory area as the program keeps it: a byte array, intrusive lists and max_order, changed in
    place (lib/alloc_page.c). Every method is proved against the value functions of PageArea and PageOps. */
module PageAlloc {
  import opened Basics
  import opened Bits
  import opened Lists
  import opened PageArea
  import opened PageFresh
  import opened PageInit
  import opened PageOps

  /** A usable block is on the list of its order and on no other; a half of it is on none. */
  lemma ListedOnce(a: Area, s: nat, k: nat)
    requires a.Valid() && a.FreeBlock(s, k)
    ensures k < NLISTS && forall j :: 0 <= j < NLISTS ==> (s in a.lists[j] <==> j == k)
    ensures k > 0 ==> forall j :: 0 <= j < NLISTS ==> s + Pow2(k - 1) !in a.lists[j]
    ensures Distinct(a.lists[k]) && forall x :: x in Without(a.lists[k], s) ==> x in a.lists[k] && x != s
  {
    WholeBlock(a, s, k);
    assert ExactAt(a.lists[k], k, a.FreeBlocks());
    WithoutMembers(a.lists[k], s);
    forall j | 0 <= j < NLISTS
      ensures (s in a.lists[j] <==> j == k) && (k > 0 ==> s + Pow2(k - 1) !in a.lists[j])
    {
      assert ExactAt(a.lists[j], j, a.FreeBlocks());
      assert (s, j) in a.FreeBlocks() <==> j == k;
      if k > 0 {
        HalvesAligned(s, k - 1, s + Pow2(k - 1));
        assert (s + Pow2(k - 1), j) !in a.FreeBlocks();
      }
    }
  }

  /** The fields that split leaves behind. */
  lemma SplitFields(a: Area, s: nat, k: nat, b: Area)
    requires a.Sized() && IsBlock(a, s, k) && 0 < k && b.base == a.base && b.top == a.top
    requires b.states == Fill(a.states, s - a.base, Pow2(k), a.At(s) - 1)
    requires var ls, low, h := a.lists[k := Without(a.lists[k], s)], a.lists[k - 1], s + Pow2(k - 1);
      b.lists == ls[k - 1 := if IsFresh(a.At(s)) then low + [s, h] else [h, s] + low]
    requires b.maxOrder == if k == a.maxOrder && Without(a.lists[k], s) == [] then k - 1 else a.maxOrder
    ensures b == PageArea.Split(a, s)
  {
  }

  lemma SplitStep(a: Area, s: nat, k: nat, sz: nat)
    requires a.Valid() && a.FreeBlock(s, k) && sz < k
    ensures a.Contains(s) && OrderOf(a.At(s)) == k && IsBlock(a, s, k)
    ensures var b := PageArea.Split(a, s);
      b.Valid() && b.FreeBlock(s, k - 1) && SplitDown(b, s, k - 1, sz) == SplitDown(a, s, k, sz) && SameUse(a, b)
  {
    SplitKeeps(a, s, k);
  }

  lemma BothOut(l: seq<nat>, s: nat, t: nat)
    requires Distinct(l) && s != t && s in l
    ensures s in Without(l, t) && s !in Without(Without(l, t), s)
  {
    WithoutMembers(l, t);
    WithoutMembers(Without(l, t), s);
  }

  /** s and t are two pages on list k, and s is on no other list. */
  ghost predicate PairOn(ls: seq<seq<nat>>, k: nat, s: nat, t: nat)
    requires |ls| == NLISTS && k < NLISTS
  {
    && Distinct(ls[k]) && s in ls[k] && t in ls[k] && s != t
    && (forall j :: 0 <= j < NLISTS && j != k ==> s !in ls[j])
  }

  lemma PairListed(a: Area, s: nat, k: nat)
    requires a.Valid() && k + 1 < NLISTS && Mergeable(a, s, k) && Aligned(s, k)
    ensures PairOn(a.lists, k, s, s + Pow2(k))
  {
    hide Area.TiledIn, Area.FreshBounded, Exact, Aligned, Pow2, Without, Distinct;
    var t := s + Pow2(k);
    AlignedNext(s, k);
    ListedOnce(a, s, k);
    ListedOnce(a, t, k);
  }

  lemma BlockUniform(a: Area, s: nat, k: nat)
    requires a.Sized() && IsBlock(a, s, k)
    ensures forall x :: s - a.base <= x < s - a.base + Pow2(k) ==> a.states[x] == a.At(s)
  {
    forall x | s - a.base <= x < s - a.base + Pow2(k) ensures a.states[x] == a.At(s) {
      assert a.At(a.base + x) == a.At(s);
    }
  }

  lemma PairUniform(a: Area, s: nat, k: nat)
    requires a.Sized() && Mergeable(a, s, k) && IsBlock(a, s, k) && IsBlock(a, s + Pow2(k), k)
    ensures forall x :: s - a.base <= x < s - a.base + Pow2(k + 1) ==> a.states[x] == k
  {
    forall x | s - a.base <= x < s - a.base + Pow2(k + 1) ensures a.states[x] == k {
      assert a.At(a.base + x) == k;
    }
  }

  /** The fields that coalesce leaves behind. */
  lemma MergeFields(a: Area, s: nat, k: nat, b: Area)
    requires a.Sized() && Mergeable(a, s, k) && k + 1 < NLISTS && b.base == a.base && b.top == a.top
    requires b.states == Fill(a.states, s - a.base, Pow2(k + 1), k + 1)
    requires b.lists == MergeLists(a.lists, k, s, s + Pow2(k))
    requires b.maxOrder == if k + 1 > a.maxOrder then k + 1 else a.maxOrder
    ensures b == Merge(a, s, k)
  {
  }

  lemma LiveNotListed(a: Area, s: nat)
    requires a.Valid() && a.Contains(s) && IsAllocated(a.At(s))
    ensures forall j :: 0 <= j < NLISTS ==> s !in a.lists[j]
  {
    forall j | 0 <= j < NLISTS ensures s !in a.lists[j] {
      assert ExactAt(a.lists[j], j, a.FreeBlocks());
      assert (s, j) !in a.FreeBlocks();
    }
  }

  lemma NotYetListed(a: Area)
    requires a.Valid()
    ensures forall j :: 0 <= j < NLISTS ==> a.top !in a.lists[j]
  {
    forall j | 0 <= j < NLISTS ensures a.top !in a.lists[j] {
      assert ExactAt(a.lists[j], j, a.FreeBlocks());
      assert (a.top, j) !in a.FreeBlocks();
    }
  }

  // ----- Where links are written -----

  ghost function UsablePages(a: Area): (ps: iset<nat>)
    requires a.Sized()
  {
    iset p: nat | a.Contains(p) && IsUsable(a.At(p))
  }

  lemma ListedUsable(a: Area)
    requires a.Valid()
    ensures ListedPages(a.lists) <= UsablePages(a)
  {
    forall p: nat | OnSome(a.lists, p) ensures p in UsablePages(a) {
      var k :| 0 <= k < NLISTS && p in a.lists[k];
      assert ExactAt(a.lists[k], k, a.FreeBlocks());
      assert (p, k) in a.FreeBlocks();
    }
  }

  lemma SameUsePages(a: Area, b: Area)
    requires a.Sized() && b.Sized() && SameUse(a, b)
    ensures UsablePages(a) == UsablePages(b)
  {
  }

  /** A split writes links of list heads and usable pages only. */
  lemma SplitConfined(a: Area, s: nat, k: nat, m0: Links, m1: Links, m2: Links)
    requires a.Valid() && IsBlock(a, s, k) && 0 < k && IsUsable(a.At(s))
    requires LinksKept(m0, m1, ListedPages(a.lists))
    requires LinksKept(m1, m2, ListedPages(a.lists[k := Without(a.lists[k], s)]) + iset{s, s + Pow2(k - 1)})
    ensures LinksKept(m0, m2, UsablePages(a))
  {
    hide LinksKept, ListedPages, Area.TiledIn, Area.FreshBounded;
    ListedUsable(a);
    assert ExactAt(a.lists[k], k, a.FreeBlocks());
    WithoutFewer(a.lists, k, s);
    var ps := ListedPages(a.lists[k := Without(a.lists[k], s)]) + iset{s, s + Pow2(k - 1)};
    assert a.At(s + Pow2(k - 1)) == a.At(s);
    KeptTrans(m0, m1, m2, ListedPages(a.lists), ps, UsablePages(a));
  }

  /** So does taking a block off its list and putting it at the end of another. */
  lemma TailConfined(a: Area, s: nat, k: nat, m0: Links, m1: Links, m2: Links)
    requires a.Valid() && k < NLISTS && a.FreeBlock(s, k)
    requires LinksKept(m0, m1, ListedPages(a.lists))
    requires LinksKept(m1, m2, ListedPages(a.lists[k := Without(a.lists[k], s)]) + iset{s})
    ensures LinksKept(m0, m2, UsablePages(a))
  {
    hide LinksKept, ListedPages, Area.TiledIn, Area.FreshBounded;
    ListedUsable(a);
    assert ExactAt(a.lists[k], k, a.FreeBlocks());
    WithoutFewer(a.lists, k, s);
    var ps := ListedPages(a.lists[k := Without(a.lists[k], s)]) + iset{s};
    KeptTrans(m0, m1, m2, ListedPages(a.lists), ps, UsablePages(a));
  }

  lemma PairFewer(ls: seq<seq<nat>>, k: nat, s: nat, t: nat)
    requires |ls| == NLISTS && k < NLISTS && PairOn(ls, k, s, t)
    ensures var l1 := ls[k := Without(ls[k], t)]; var l2 := l1[k := Without(l1[k], s)];
      ListedPages(l1) <= ListedPages(ls) && ListedPages(l2) + iset{s} <= ListedPages(ls)
  {
    var l1 := ls[k := Without(ls[k], t)];
    WithoutFewer(ls, k, t);
    WithoutMembers(ls[k], t);
    WithoutFewer(l1, k, s);
    assert OnSome(ls, s);
  }

  lemma ReleaseConfined(a: Area, s: nat, k: nat)
    requires a.Valid() && IsBlock(a, s, k)
    ensures Release(a, s, k).Sized() && ListedPages(a.lists) + iset{s} <= UsablePages(Release(a, s, k))
  {
    ListedUsable(a);
    var b := Release(a, s, k);
    assert forall p :: a.Contains(p) ==> b.At(p) == if s <= p < s + Pow2(k) then STATUS_FREE + k else a.At(p);
    hide ListedPages;
    assert UsablePages(a) <= UsablePages(b);
  }

  lemma PairBlocks(a: Area, s: nat, k: nat)
    requires a.Valid() && Mergeable(a, s, k) && Aligned(s, k) && k < NLISTS
    ensures IsBlock(a, s, k) && IsBlock(a, s + Pow2(k), k)
  {
    hide Area.TiledIn, Exact, Aligned;
    AlignedNext(s, k);
    WholeBlock(a, s, k);
    WholeBlock(a, s + Pow2(k), k);
  }

  /** memset on state bytes. */
  method SetStates(states: array<nat>, idx: nat, n: nat, v: nat)
    requires idx + n <= states.Length
    modifies states
    ensures states[..] == Fill(old(states[..]), idx, n, v)
    ensures states[..idx + n] == old(states[..idx]) + seq(n, _ => v)
  {
    for i := 0 to n
      invariant forall x :: 0 <= x < states.Length ==>
        states[x] == if idx <= x < idx + i then v else old(states[x])
    {
      states[idx + i] := v;
    }
  }

  /** The order search of the initialisation loop: starts from the previous block's order, goes down
      while the block does not fit and up while the next order is aligned and fits. */
  method NextOrder(i: nat, top: nat, prev: nat) returns (order: nat)
    requires i < top < Pow2(NLISTS) && Aligned(i, prev)
    ensures order < NLISTS && Aligned(i, order) && i + Pow2(order) <= top
    ensures !(Aligned(i, order + 1) && i + Pow2(order + 1) <= top)
  {
    order := prev;
    while i + Pow2(order) > top
      invariant Aligned(i, order)
      decreases order
    {
      assert order > 0;
      AlignedLower(i, order, order - 1);
      order := order - 1;
    }
    while Aligned(i, order + 1) && i + Pow2(order + 1) <= top
      invariant Aligned(i, order) && i + Pow2(order) <= top
      decreases top - Pow2(order)
    {
      order := order + 1;
    }
    Pow2StrictMono(order, NLISTS);
  }

  lemma ZeroAlignment(x: nat)
    ensures Aligned(x, 0)
  {
  }

  /** The initialisation loop: cuts [b, end) into fresh blocks, left to right. */
  method CutBlocks(b: nat, end: nat, states: array<nat>, lists: ListMemory) returns (max: nat)
    requires 1 <= b < end < Pow2(NLISTS) && states.Length == end - b
    requires lists.Valid() && lists.lists == seq(NLISTS, _ => [])
    modifies states, lists
    ensures lists.Valid()
    ensures var a := Area(b, end, states[..], lists.lists, max); a.Valid() && CutMaximal(a, end) && MaxPlaced(a)
    ensures Descending(lists.lists)
  {
    hide Descending;
    hide Exact, Area.TiledIn, Area.FreshBounded, CutMaximal, MaxPlaced, Fill, ListMemory.Valid, Aligned, Extended, Pow2;
    ZeroAlignment(b);
    var i: nat, order: nat := b, 0;
    max := 0;
    ghost var a := Area(b, b, [], lists.lists, 0);
    EmptyValid(a);
    EmptyDescending(a.lists);
    while i < end
      invariant b <= i <= end && a == Area(b, i, states[..i - b], lists.lists, max)
      invariant lists.Valid() && a.Valid() && CutMaximal(a, end) && MaxPlaced(a)
      invariant Aligned(i, order) && (i == b ==> max == 0) && Descending(a.lists)
      decreases end - i
    {
      order := NextOrder(i, end, order);
      ExtendKeeps(a, order);
      ExtendMaximal(a, order, end);
      ExtendDescending(a, order);
      AlignedNext(i, order);
      max := PlaceBlock(states, lists, i, i - b, order, max, a);
      i := i + Pow2(order);
      a := Extended(a, order);
    }
    assert states[..] == states[..end - b];
  }

  /** Marks the pages of one new block, puts it on its list and raises max_order. */
  method PlaceBlock(states: array<nat>, lists: ListMemory, i: nat, idx: nat, order: nat, max0: nat, ghost a: Area)
    returns (max: nat)
    requires a.Valid() && order < NLISTS && a.top + Pow2(order) - a.base <= states.Length
    requires i == a.top && idx == i - a.base && max0 == a.maxOrder
    requires lists.Valid() && lists.lists == a.lists && states[..idx] == a.states
    modifies states, lists
    ensures lists.Valid()
    ensures var n := a.top + Pow2(order) - a.base;
      Area(a.base, a.top + Pow2(order), states[..n], lists.lists, max) == Extended(a, order)
  {
    hide Exact, Area.TiledIn, Area.FreshBounded, ListMemory.Valid, Fill;
    NotYetListed(a);
    SetStates(states, idx, Pow2(order), order);
    lists.AddFront(order, i);
    max := if order > max0 then order else max0;
  }

  /** s starts the usable block that contains p. */
  ghost predicate InBlock(a: Area, s: nat, p: nat)
    requires a.Sized()
  {
    a.Contains(p) && a.FreeBlock(s, OrderOf(a.At(p))) && s <= p < s + Pow2(OrderOf(a.At(p)))
  }

  /** One round of the coalescing loop on the pair that the block at s belongs to. */
  lemma CoalesceStep(a: Area, b: Area, s: nat, p: nat)
    requires a.Sized() && b.Valid() && SameUse(a, b) && InBlock(b, s, p)
    ensures var k := OrderOf(b.At(p)); var t := PairStart(s, k);
      && k < NLISTS && Aligned(t, k + 1)
      && (Mergeable(b, t, k) && k + 1 < NLISTS ==>
            var c := Merge(b, t, k);
            && SameUse(a, c) && InBlock(c, t, p) && OrderOf(c.At(p)) == k + 1
            && (s == p ==> IsFresh(b.At(p))))
  {
    hide Exact, Area.TiledIn, Area.FreshBounded, Aligned, SameUse;
    var k := OrderOf(b.At(p));
    var t := PairStart(s, k);
    WholeBlock(b, s, k);
    if Mergeable(b, t, k) && k + 1 < NLISTS {
      MergeKeeps(b, t, k);
      MergedByte(b, t, k, p);
      UseTrans(a, b, Merge(b, t, k));
    }
  }

  lemma SameUseSelf(a: Area)
    requires a.Sized()
    ensures SameUse(a, a)
  {
  }

  lemma MergedByte(b: Area, t: nat, k: nat, p: nat)
    requires b.Sized() && Mergeable(b, t, k) && k + 1 < NLISTS && t <= p < t + Pow2(k + 1)
    ensures Merge(b, t, k).At(p) == k + 1
  {
  }

  lemma UseTrans(a: Area, b: Area, c: Area)
    requires a.Sized() && b.Sized() && c.Sized() && SameUse(a, b) && SameUse(b, c)
    ensures SameUse(a, c)
  {
    hide IsAllocated, IsUsable;
  }

  class MemArea {
    const base: nat
    const top: nat
    const pageStates: array<nat>
    const freelists: ListMemory
    var maxOrder: nat

    /** _page_alloc_init_area for the frames [start, end): the state table comes first, the rest is cut
        into fresh blocks of the largest possible order. */
    constructor (start: nat, end: nat)
      requires end > start && end - start > 4 && end < Pow2(NLISTS)
      ensures Valid() && fresh(pageStates) && fresh(freelists)
      ensures base == start + TableSize(end - start) && top == end
      ensures CutMaximal(View(), end) && MaxPlaced(View()) && Descending(View().lists)
    {
      hide Area.Valid, CutMaximal, MaxPlaced, ListMemory.Valid, Pow2;
      TableSizeLeast(end - start, TableSize(end - start));
      base := start + TableSize(end - start);
      top := end;
      var states := new nat[end - start - TableSize(end - start)];
      var lists := new ListMemory(NLISTS);
      var max := CutBlocks(start + TableSize(end - start), end, states, lists);
      pageStates, freelists, maxOrder := states, lists, max;
    }

    ghost function View(): (a: Area)
      reads this, pageStates, freelists
    {
      Area(base, top, pageStates[..], freelists.lists, maxOrder)
    }

    ghost predicate Valid()
      reads this, pageStates, freelists
    {
      freelists.Valid() && View().Valid()
    }

    /** The update loop of split, coalesce and _free_pages: asserts the old byte of each page of the
        block and writes the new one. */
    method Remark(idx: nat, n: nat, was: nat, v: nat)
      requires idx + n <= pageStates.Length
      requires forall x :: idx <= x < idx + n ==> pageStates[x] == was
      modifies pageStates
      ensures pageStates[..] == Fill(old(pageStates[..]), idx, n, v)
    {
      for i := 0 to n
        invariant forall x :: 0 <= x < pageStates.Length ==>
          pageStates[x] == if idx <= x < idx + i then v else old(pageStates[x])
      {
        assert pageStates[idx + i] == was;
        pageStates[idx + i] := v;
      }
    }

    /** The list work of split. */
    method ReplaceByHalves(order: nat, s: nat, h: nat, isFresh: bool)
      requires freelists.Valid() && |freelists.lists| == NLISTS && 0 < order < NLISTS && s != h
      requires forall j :: 0 <= j < NLISTS ==> s !in freelists.lists[j] && h !in freelists.lists[j]
      modifies freelists
      ensures freelists.Valid()
      ensures var low := old(freelists.lists)[order - 1];
        freelists.lists == old(freelists.lists)[order - 1 := if isFresh then low + [s, h] else [h, s] + low]
      ensures LinksKept(old(freelists.links), freelists.links, ListedPages(old(freelists.lists)) + iset{s, h})
    {
      hide ListMemory.Valid, LinksKept, ListedPages;
      ghost var low := freelists.lists[order - 1];
      ghost var ls, m0, ps := freelists.lists, freelists.links, ListedPages(freelists.lists);
      FewerListed(ls, order - 1, if isFresh then low + [s] else [s] + low, iset{s});
      if isFresh {
        freelists.AddTail(order - 1, s);
        ghost var m1, qs := freelists.links, ListedPages(freelists.lists) + iset{h};
        freelists.AddTail(order - 1, h);
        KeptTrans(m0, m1, freelists.links, ps + iset{s}, qs, ps + iset{s, h});
        assert low + [s] + [h] == low + [s, h];
      } else {
        freelists.AddFront(order - 1, s);
        ghost var m1, qs := freelists.links, ListedPages(freelists.lists) + iset{h};
        freelists.AddFront(order - 1, h);
        KeptTrans(m0, m1, freelists.links, ps + iset{s}, qs, ps + iset{s, h});
        assert [h] + ([s] + low) == [h, s] + low;
      }
    }

    /** split: every C assert is a Dafny assert, so none of them can fire. */
    method Split(pfn: nat)
      requires Valid() && View().Contains(pfn)
      requires OrderOf(View().At(pfn)) > 0 && View().FreeBlock(pfn, OrderOf(View().At(pfn)))
      modifies this`maxOrder, pageStates, freelists
      ensures IsBlock(old(View()), pfn, OrderOf(old(View()).At(pfn)))
      ensures Valid() && View() == PageArea.Split(old(View()), pfn)
      ensures LinksKept(old(freelists.links), freelists.links, UsablePages(old(View())))
    {
      hide Exact, Area.TiledIn, Area.FreshBounded, ListMemory.Valid, Fill, SameUse, Aligned, PageArea.Split;
      hide LinksKept, ListedPages, UsablePages, Pow2, Without;
      ghost var a, m0 := View(), freelists.links;
      var idx := pfn - base;
      var metadata := pageStates[idx];
      var order := OrderOf(metadata);
      SplitKeeps(a, pfn, order);
      ListedOnce(a, pfn, order);
      assert IsUsable(metadata) && 0 < order < NLISTS;
      assert Aligned(pfn, order) && pfn + Pow2(order) - 1 < top;
      freelists.Remove(pfn, order);
      ghost var m1 := freelists.links;
      BlockUniform(a, pfn, order);
      Remark(idx, Pow2(order), metadata, metadata - 1);
      if order == maxOrder {
        var empty := freelists.IsEmpty(order);
        if empty {
          maxOrder := maxOrder - 1;
        }
      }
      ReplaceByHalves(order, pfn, pfn + Pow2(order - 1), IsFresh(metadata));
      SplitFields(a, pfn, order, View());
      SplitConfined(a, pfn, order, m0, m1, freelists.links);
    }

    /** The search of page_memalign_order: the first non-empty list from order j up to max_order. */
    method Search(j: nat) returns (order: nat, p: nat)
      requires Valid() && j < NLISTS
      ensures order == FirstOrder(View(), j)
      ensures order <= maxOrder ==> p == View().lists[order][0]
    {
      hide Area.TiledIn, Exact, ListMemory.Valid;
      order, p := j, 0;
      while order <= maxOrder
        invariant FirstOrder(View(), order) == FirstOrder(View(), j)
        decreases maxOrder + 1 - order
      {
        var found: bool;
        found, p := freelists.First(order);
        if found {
          break;
        }
        order := order + 1;
      }
    }

    /** Splits the block at p until its first part has order sz. */
    method SplitTo(p: nat, k: nat, sz: nat)
      requires Valid() && View().FreeBlock(p, k) && sz <= k < NLISTS
      modifies this`maxOrder, pageStates, freelists
      ensures Valid() && View() == SplitDown(old(View()), p, k, sz)
      ensures LinksKept(old(freelists.links), freelists.links, UsablePages(old(View())))
    {
      hide Exact, Area.TiledIn, Area.FreshBounded, ListMemory.Valid, LinksKept, UsablePages, Aligned, SameUse;
      ghost var a, m0, ps := View(), freelists.links, UsablePages(View());
      NothingWritten(m0, ps);
      var order := k;
      while order > sz
        invariant sz <= order <= k && Valid() && View().FreeBlock(p, order)
        invariant SplitDown(View(), p, order, sz) == SplitDown(a, p, k, sz)
        invariant UsablePages(View()) == ps && LinksKept(m0, freelists.links, ps)
      {
        ghost var b, m1 := View(), freelists.links;
        SplitStep(b, p, order, sz);
        SameUsePages(b, PageArea.Split(b, p));
        hide *;
        Split(p);
        KeptTrans(m0, m1, freelists.links, ps, ps, ps);
        order := order - 1;
      }
    }

    /** page_memalign_order(al, sz, false). */
    method PageMemalignOrder(al: nat, sz: nat) returns (res: Option<nat>)
      requires Valid() && al < NLISTS && sz < NLISTS
      modifies this`maxOrder, pageStates, freelists
      ensures Valid()
      ensures AllocResult(View(), res) == Alloc(old(View()), al, sz)
      ensures LinksKept(old(freelists.links), freelists.links, UsablePages(old(View())))
    {
      hide Exact, Area.TiledIn, ListMemory.Valid, Granted, LinksKept, UsablePages;
      ghost var a, m0 := View(), freelists.links;
      var order, p := Search(if sz > al then sz else al);
      if order > maxOrder {
        assert LinksKept(m0, m0, UsablePages(a)) by { NothingWritten(m0, UsablePages(a)); }
        return None;
      }
      FirstIsBlock(a, order);
      SplitDownKeeps(a, p, order, sz);
      SplitTo(p, order, sz);
      ghost var m1 := freelists.links;
      SameUsePages(a, View());
      TakeBlock(p, sz);
      KeptTrans(m0, m1, freelists.links, UsablePages(a), UsablePages(a), UsablePages(a));
      return Some(p);
    }

    method TakeBlock(p: nat, sz: nat)
      requires Valid() && View().FreeBlock(p, sz)
      modifies pageStates, freelists
      ensures IsBlock(old(View()), p, sz)
      ensures Valid() && View() == Take(old(View()), p, sz)
      ensures LinksKept(old(freelists.links), freelists.links, UsablePages(old(View())))
    {
      hide Exact, Area.TiledIn, Area.FreshBounded, ListMemory.Valid, Fill, LinksKept, ListedPages;
      ghost var a := View();
      NothingWritten(freelists.links, UsablePages(a));
      ListedUsable(a);
      ListedOnce(a, p, sz);
      TakeKeeps(a, p, sz);
      freelists.Remove(p, sz);
      KeptTrans(old(freelists.links), old(freelists.links), freelists.links,
        UsablePages(a), ListedPages(a.lists), UsablePages(a));
      SetStates(pageStates, p - base, Pow2(sz), STATUS_ALLOCATED + sz);
    }

    /** The search loop for a fresh block: it looks at the last block of each list. */
    method SearchFresh(j: nat) returns (order: nat, p: nat)
      requires Valid() && j <= NLISTS
      ensures order == FreshOrder(View(), j)
      ensures order <= maxOrder ==> p == PageFresh.Last(View().lists[order])
    {
      hide Area.TiledIn, Exact, ListMemory.Valid;
      order, p := j, 0;
      while order <= maxOrder
        invariant order <= NLISTS && FreshOrder(View(), order) == FreshOrder(View(), j)
        decreases maxOrder + 1 - order
      {
        var found: bool;
        found, p := freelists.Last(order);
        if found {
          LastIsBlock(View(), order);
          if IsFresh(pageStates[p - base]) {
            break;
          }
        }
        order := order + 1;
      }
    }

    /** page_memalign_order(al, sz, true), for sz of at least 1. */
    method PageMemalignFresh(al: nat, sz: nat) returns (res: Option<nat>)
      requires Valid() && al < NLISTS && 0 < sz < NLISTS
      modifies this`maxOrder, pageStates, freelists
      ensures Valid()
      ensures AllocResult(View(), res) == AllocFresh(old(View()), al, sz)
      ensures LinksKept(old(freelists.links), freelists.links, UsablePages(old(View())))
    {
      hide Exact, Area.TiledIn, Area.FreshBounded, ListMemory.Valid, Granted, LinksKept, UsablePages, TakeSecond, Pow2;
      hide AllocFresh, FreshOrder, SplitDown, SameUse;
      ghost var a, m0 := View(), freelists.links;
      FreshCorrect(a, al, sz);
      var order, p := SearchFresh((if sz > al then sz else al) + 1);
      FreshSteps(a, al, sz, order);
      if order > maxOrder {
        assert LinksKept(m0, m0, UsablePages(a)) by { NothingWritten(m0, UsablePages(a)); }
        return None;
      }
      SplitDownKeeps(a, p, order, sz);
      SplitTo(p, order, sz);
      ghost var m1 := freelists.links;
      SameUsePages(a, View());
      TakeSecondHalf(p, sz);
      KeptTrans(m0, m1, freelists.links, UsablePages(a), UsablePages(a), UsablePages(a));
      return Some(p + Pow2(sz - 1));
    }

    method TakeSecondHalf(p: nat, sz: nat)
      requires Valid() && View().FreeBlock(p, sz) && 0 < sz
      modifies pageStates, freelists
      ensures freelists.Valid() && IsBlock(old(View()), p, sz) && View() == TakeSecond(old(View()), p, sz)
      ensures LinksKept(old(freelists.links), freelists.links, UsablePages(old(View())))
    {
      hide Exact, Area.TiledIn, Area.FreshBounded, ListMemory.Valid, Fill, LinksKept, ListedPages, UsablePages, Pow2;
      ghost var a, m0 := View(), freelists.links;
      ListedOnce(a, p, sz);
      WholeBlock(a, p, sz);
      HalfInside(p, sz);
      freelists.Remove(p, sz);
      ghost var m1 := freelists.links;
      SetStates(pageStates, p - base, Pow2(sz - 1), sz - 1);
      freelists.AddTail(sz - 1, p);
      TailConfined(a, p, sz, m0, m1, freelists.links);
      SetStates(pageStates, p + Pow2(sz - 1) - base, Pow2(sz - 1), STATUS_ALLOCATED + sz - 1);
    }

    /** coalesce, on two neighbouring blocks of one order: the invariant is kept exactly when nothing is
        merged or the blocks are true buddies. */
    method Coalesce(order: nat, pfn: nat) returns (merged: bool)
      requires Valid() && Aligned(pfn, order) && order < NLISTS
      modifies this`maxOrder, pageStates, freelists
      ensures merged <==> Mergeable(old(View()), pfn, order)
      ensures merged ==> order + 1 < NLISTS && View() == Merge(old(View()), pfn, order)
      ensures !merged ==> View() == old(View())
      ensures Valid() <==> (merged ==> Aligned(pfn, order + 1))
      ensures LinksKept(old(freelists.links), freelists.links, UsablePages(old(View())))
    {
      hide Exact, Area.TiledIn, Area.FreshBounded, ListMemory.Valid, Fill, Aligned, LinksKept, UsablePages;
      ghost var a := View();
      NothingWritten(freelists.links, UsablePages(a));
      var pfn2 := pfn + Pow2(order);
      AlignedNext(pfn, order);
      assert Aligned(pfn, order) && Aligned(pfn2, order);
      if !(base <= pfn < top) || !(base <= pfn2 + Pow2(order) - 1 < top) {
        return false;
      }
      var first, second := pfn - base, pfn2 - base;
      if pageStates[first] != order || pageStates[second] != order {
        return false;
      }
      JoinPair(order, pfn);
      if Aligned(pfn, order + 1) {
        MergeKeeps(a, pfn, order);
      } else {
        MergeBreaks(a, pfn, order);
      }
      return true;
    }

    /** The rest of coalesce, once the pair is known to be mergeable. */
    method JoinPair(order: nat, pfn: nat)
      requires Valid() && Aligned(pfn, order) && Mergeable(View(), pfn, order)
      modifies this`maxOrder, pageStates, freelists
      ensures order + 1 < NLISTS && View() == Merge(old(View()), pfn, order) && freelists.Valid()
      ensures LinksKept(old(freelists.links), freelists.links, UsablePages(old(View())))
    {
      hide Exact, Area.TiledIn, Area.FreshBounded, ListMemory.Valid, Fill, Aligned, MergeLists, IsBlock, Merge;
      hide LinksKept, ListedPages, UsablePages, PairOn;
      ghost var a, m0 := View(), freelists.links;
      Pow2StrictMono(order + 1, NLISTS);
      PairListed(a, pfn, order);
      PairBlocks(a, pfn, order);
      PairUniform(a, pfn, order);
      ListedUsable(a);
      NothingWritten(m0, UsablePages(a));
      JoinOnLists(order, pfn, pfn + Pow2(order));
      KeptTrans(m0, m0, freelists.links, UsablePages(a), ListedPages(a.lists), UsablePages(a));
      Remark(pfn - base, Pow2(order + 1), order, order + 1);
      if order + 1 > maxOrder {
        maxOrder := order + 1;
      }
      MergeFields(a, pfn, order, View());
    }

    /** The list work of coalesce. */
    method JoinOnLists(order: nat, s: nat, t: nat)
      requires freelists.Valid() && |freelists.lists| == NLISTS && order + 1 < NLISTS
      requires PairOn(freelists.lists, order, s, t)
      modifies freelists
      ensures freelists.Valid() && freelists.lists == MergeLists(old(freelists.lists), order, s, t)
      ensures LinksKept(old(freelists.links), freelists.links, ListedPages(old(freelists.lists)))
    {
      hide ListMemory.Valid, LinksKept, ListedPages;
      ghost var l0, m0, ps := freelists.lists, freelists.links, ListedPages(freelists.lists);
      PairFewer(l0, order, s, t);
      BothOut(l0[order], s, t);
      freelists.Remove(t, order);
      ghost var l1, m1 := freelists.lists, freelists.links;
      freelists.Remove(s, order);
      ghost var l2, m2 := freelists.lists, freelists.links;
      KeptTrans(m0, m1, m2, ps, ListedPages(l1), ps);
      freelists.AddFront(order + 1, s);
      KeptTrans(m0, m2, freelists.links, ps, ListedPages(l2) + iset{s}, ps);
    }

    /** The do-while loop of _free_pages: merges upwards as long as coalesce agrees. Each round looks at
        a true buddy pair and a successful round raises the order, so the loop ends. A block that carries
        the free bit is never merged. */
    method CoalesceFrom(pfn: nat)
      requires Valid() && View().Contains(pfn) && View().FreeBlock(pfn, OrderOf(View().At(pfn)))
      modifies this`maxOrder, pageStates, freelists
      ensures Valid() && SameUse(old(View()), View())
      ensures !IsFresh(old(View()).At(pfn)) ==> View() == old(View())
      ensures LinksKept(old(freelists.links), freelists.links, UsablePages(old(View())))
    {
      hide Exact, Area.TiledIn, Area.FreshBounded, ListMemory.Valid, LinksKept, UsablePages, SameUse;
      ghost var a, m0, ps := View(), freelists.links, UsablePages(View());
      NothingWritten(m0, ps);
      assert SameUse(a, a) by { SameUseSelf(a); }
      var s, merged := pfn, true;
      while merged
        invariant Valid() && SameUse(a, View())
        invariant merged ==> InBlock(View(), s, pfn)
        invariant !IsFresh(a.At(pfn)) ==> View() == a && (merged ==> s == pfn)
        invariant LinksKept(m0, freelists.links, ps)
        decreases if merged then NLISTS - OrderOf(View().At(pfn)) else 0
      {
        ghost var b, m1 := View(), freelists.links;
        var order := OrderOf(pageStates[pfn - base]);
        CoalesceStep(a, b, s, pfn);
        SameUsePages(a, b);
        s := PairStart(s, order);
        AlignedHalf(s, order);
        hide *;
        merged := Coalesce(order, s);
        KeptTrans(m0, m1, freelists.links, ps, ps, ps);
      }
    }

    /** _free_pages; ok is false when one of its asserts fires. Frame 0 stands for NULL, which is ignored. */
    method FreePages(pfn: nat) returns (ok: bool)
      requires Valid()
      modifies this`maxOrder, pageStates, freelists
      ensures Valid() && (pfn == 0 ==> ok && View() == old(View()))
      ensures pfn != 0 ==> ok == Free(old(View()), pfn).Some?
      ensures pfn != 0 ==> View() == if ok then Free(old(View()), pfn).value else old(View())
      ensures LinksKept(old(freelists.links), freelists.links, UsablePages(View()))
    {
      hide Exact, Area.TiledIn, Area.FreshBounded, ListMemory.Valid, Fill, Aligned, SameUse;
      hide LinksKept, ListedPages, UsablePages;
      ghost var a, m0 := View(), freelists.links;
      NothingWritten(m0, UsablePages(a));
      if pfn == 0 {
        return true;
      }
      if !(base <= pfn < top) {
        return false;
      }
      var order := OrderOf(pageStates[pfn - base]);
      if !IsAllocated(pageStates[pfn - base]) || !Aligned(pfn, order) {
        return false;
      }
      ReleaseKeeps(a, pfn, order);
      assert order < NLISTS && pfn + Pow2(order) - 1 < top;
      BlockUniform(a, pfn, order);
      LiveNotListed(a, pfn);
      Remark(pfn - base, Pow2(order), STATUS_ALLOCATED + order, STATUS_FREE + order);
      freelists.AddFront(order, pfn);
      assert View() == Release(a, pfn, order);
      assert View().At(pfn) == STATUS_FREE + order;
      ghost var m1, ps := freelists.links, UsablePages(View());
      ReleaseConfined(a, pfn, order);
      CoalesceFrom(pfn);
      KeptTrans(m0, m1, freelists.links, ListedPages(a.lists) + iset{pfn}, ps, ps);
      return true;
    }
  }
}
