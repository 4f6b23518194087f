/** The whole effect of an allocation on bytes and free lists, and freeing as its inverse. */
module PageExact {
  import opened Basics
  import opened Bits
  import opened Lists
  import opened PageArea
  import opened PageFit
  import opened PageOps

  // ----- Lists -----

  lemma WithoutNew(l: seq<nat>, s: nat, h: nat)
    requires s !in l && s != h
    ensures Without(l + [s, h], s) == l + [h] && Without([h, s] + l, s) == [h] + l
  {
    hide IndexOf;
    var b, f := l + [s, h], [h, s] + l;
    assert b[|l|] == s && f[1] == s;
    assert forall i :: 0 <= i < |b| && b[i] == s ==> i == |l|;
    assert forall i :: 0 <= i < |f| && f[i] == s ==> i == 1;
    assert b[..|l|] == l && b[|l| + 1..] == [h];
    assert f[..1] == [h] && f[2..] == l;
  }

  lemma WithoutFirst(l: seq<nat>)
    requires l != [] && Distinct(l)
    ensures Without(l, l[0]) == l[1..]
  {
    hide IndexOf;
    assert l[0] in l;
    assert forall i :: 0 <= i < |l| && l[i] == l[0] ==> i == 0;
    assert l[..0] + l[1..] == l[1..];
  }

  lemma WithoutHead(s: nat, l: seq<nat>)
    ensures Without([s] + l, s) == l
  {
    assert ([s] + l)[0] == s && IndexOf([s] + l, s) == 0;
    assert ([s] + l)[..0] + ([s] + l)[1..] == l;
  }

  /** A free block is on the list of its order alone. */
  lemma OneList(a: Area, s: nat, k: nat, j: nat)
    requires a.Valid() && a.FreeBlock(s, k) && j < NLISTS && j != k
    ensures s !in a.lists[j]
  {
    hide Area.TiledIn, Area.FreshBounded, Aligned;
    assert ExactAt(a.lists[j], j, a.FreeBlocks());
  }

  lemma DistinctList(a: Area, k: nat)
    requires a.Valid() && k < NLISTS
    ensures Distinct(a.lists[k])
  {
    hide Area.TiledIn, Area.FreshBounded;
    assert ExactAt(a.lists[k], k, a.FreeBlocks());
  }

  /** A half joins the list of its order: at the end if it is fresh, otherwise in front. */
  function WithHalf(l: seq<nat>, h: nat, fresh': bool): (r: seq<nat>) {
    if fresh' then l + [h] else [h] + l
  }

  lemma {:induction false} SplitDownLists(a: Area, s: nat, k: nat, sz: nat, j: nat)
    requires a.Valid() && a.FreeBlock(s, k) && sz < k && j < NLISTS
    ensures SplitDown(a, s, k, sz).Sized()
    ensures var l, l', h, fresh' := a.lists[j], SplitDown(a, s, k, sz).lists[j], s + Pow2(j), IsFresh(a.At(s));
      l' ==
      if j == k then Without(l, s)
      else if sz < j < k then WithHalf(l, h, fresh')
      else if j == sz then (if fresh' then l + [s, h] else [h, s] + l)
      else l
    decreases k
  {
    hide Exact, Area.TiledIn, Area.FreshBounded, Aligned, Split, SplitDown, SameUse, Pow2, Without;
    SplitDownStep(a, s, k, sz);
    SplitListsAre(a, s, k);
    var b := Split(a, s);
    if sz == k - 1 {
      SplitDownEnd(b, s, k - 1, sz);
    } else {
      SplitSameFresh(a, s, k, s);
      SplitDownLists(b, s, k - 1, sz, j);
      if j == k - 1 {
        OneList(a, s, k, j);
        WithoutNew(a.lists[j], s, s + Pow2(j));
      }
    }
  }

  // ----- Bytes -----

  lemma {:induction false} SplitDownByte(a: Area, s: nat, k: nat, sz: nat, p: nat, j: nat)
    requires a.Valid() && a.FreeBlock(s, k) && sz <= k && a.Contains(p)
    ensures var b := SplitDown(a, s, k, sz);
      && b.Sized() && b.Contains(p)
      && (s <= p < s + Pow2(sz) ==> b.At(p) == a.At(s) - (k - sz))
      && (sz <= j < k && s + Pow2(j) <= p < s + Pow2(j + 1) ==> b.At(p) == a.At(s) - (k - j))
      && (!(s <= p < s + Pow2(k)) ==> b.At(p) == a.At(p))
    decreases k
  {
    hide Exact, Area.TiledIn, Area.FreshBounded, Aligned, Split, SplitDown, SameUse, Pow2;
    WholeBlock(a, s, k);
    if sz == k {
      SplitDownEnd(a, s, k, sz);
    } else {
      SplitDownStep(a, s, k, sz);
      SplitByte(a, s, k, p);
      SplitByte(a, s, k, s);
      SplitDownByte(Split(a, s), s, k - 1, sz, p, j);
      Pow2Mono(sz, k);
      Pow2Mono(k - 1, k);
      if j < k { Pow2Mono(j + 1, k); }
      if j < k - 1 { Pow2Mono(j + 1, k - 1); }
    }
  }

  lemma SplitByte(a: Area, s: nat, k: nat, p: nat)
    requires a.Sized() && IsBlock(a, s, k) && 0 < k && a.Contains(p)
    ensures Split(a, s).Sized() && Split(a, s).Contains(p)
    ensures Split(a, s).At(p) == if s <= p < s + Pow2(k) then a.At(s) - 1 else a.At(p)
  {
    hide Pow2;
  }

  // ----- The whole effect -----

  /** What an allocation of order sz does that takes the block at s of order k: its first pages are allocated; the
      half of each order in between goes to its free list, in front, or at the end if it is fresh, with the state
      the block had; the block leaves its list; nothing else changes. */
  lemma AllocExact(a: Area, al: nat, sz: nat, s: nat, k: nat, p: nat, j: nat)
    requires a.Valid() && al < NLISTS && sz < NLISTS && Alloc(a, al, sz).block == Some(s) && a.FreeBlock(s, k)
    requires a.Contains(p) && j < NLISTS
    ensures var b, m := Alloc(a, al, sz).area, a.At(s);
      && sz <= k < NLISTS && b.Sized() && b.base == a.base && b.top == a.top && s in a.lists[k]
      && (s <= p < s + Pow2(sz) ==> b.At(p) == STATUS_ALLOCATED + sz)
      && (sz <= j < k && s + Pow2(j) <= p < s + Pow2(j + 1) ==> b.At(p) == m - (k - j))
      && (!(s <= p < s + Pow2(k)) ==> b.At(p) == a.At(p))
      && b.lists[j] == (if j == k then a.lists[k][1..]
                        else if sz <= j < k then WithHalf(a.lists[j], s + Pow2(j), IsFresh(m))
                        else a.lists[j])
  {
    hide Exact, Area.TiledIn, Area.FreshBounded, Aligned, SameUse, SplitDown, Take, Pow2, Without;
    var i := FirstOrder(a, if sz > al then sz else al);
    FirstIsBlock(a, i);
    assert i == k && a.lists[k][0] == s;
    DistinctList(a, k);
    SplitDownKeeps(a, s, k, sz);
    var b := SplitDown(a, s, k, sz);
    WholeBlock(b, s, sz);
    SplitDownByte(a, s, k, sz, p, j);
    TakeEffect(b, s, sz, p, j);
    Pow2Mono(sz, k);
    if sz <= j { Pow2Mono(sz, j); }
    WithoutFirst(a.lists[k]);
    if sz == k {
      SplitDownEnd(a, s, k, sz);
    } else {
      SplitDownLists(a, s, k, sz, j);
      if j == sz {
        OneList(a, s, k, j);
        WithoutNew(a.lists[j], s, s + Pow2(j));
      }
    }
  }

  lemma TakeEffect(a: Area, s: nat, k: nat, p: nat, j: nat)
    requires a.Sized() && IsBlock(a, s, k) && a.Contains(p) && j < NLISTS
    ensures var b := Take(a, s, k);
      && b.Sized() && b.base == a.base && b.top == a.top
      && b.At(p) == (if s <= p < s + Pow2(k) then STATUS_ALLOCATED + k else a.At(p))
      && b.lists[j] == if j == k then Without(a.lists[k], s) else a.lists[j]
  {
    hide Without, Pow2;
  }

  /** Allocating undoes freeing: the block last freed is the one granted next for its order, and the area is as it
      was before it was freed, exactly when that order does not lie above max_order. */
  lemma FreeThenAlloc(a: Area, s: nat, al: nat)
    requires a.Valid() && Free(a, s).Some? && al <= OrderOf(a.At(s))
    ensures var b, k := Free(a, s).value, OrderOf(a.At(s));
      && b.Valid() && k < NLISTS
      && (Alloc(b, al, k) == AllocResult(a, Some(s)) <==> k <= a.maxOrder)
  {
    hide Exact, Area.TiledIn, Area.FreshBounded, Aligned, SameUse, Pow2, Release, Take, Without;
    var k := OrderOf(a.At(s));
    ReleaseKeeps(a, s, k);
    ReleaseStates(a, s, k);
    var b := Release(a, s, k);
    if k <= a.maxOrder {
      assert b.lists[k] == [s] + a.lists[k] by { ReleasedList(a, s, k); }
      FirstIsBlock(b, k);
      SplitDownEnd(b, s, k, k);
      ReleaseThenTake(a, s, k);
    }
  }

  lemma ReleasedList(a: Area, s: nat, k: nat)
    requires a.Sized() && IsBlock(a, s, k)
    ensures Release(a, s, k).Sized() && Release(a, s, k).lists == a.lists[k := [s] + a.lists[k]]
  {
    hide Pow2;
  }

  lemma ReleaseThenTake(a: Area, s: nat, k: nat)
    requires a.Valid() && IsBlock(a, s, k) && IsAllocated(a.At(s))
    ensures Release(a, s, k).Sized() && Take(Release(a, s, k), s, k) == a
  {
    hide Exact, Area.TiledIn, Area.FreshBounded, Aligned, Pow2, Without;
    var b := Release(a, s, k);
    var l := a.lists[k];
    WithoutHead(s, l);
    var c := Take(b, s, k);
    assert c.lists == a.lists;
    assert |c.states| == |a.states|;
    forall i | 0 <= i < |a.states| ensures c.states[i] == a.states[i] {
      assert c.At(a.base + i) == c.states[i] && a.At(a.base + i) == a.states[i];
    }
    assert c.states == a.states;
  }
}
