/** Which block an allocation takes and what is left of it, and the order blocks have on the free lists. */
module PageFit {
  import opened Basics
  import opened Bits
  import opened Lists
  import opened PageArea
  import opened PageOps

  /** A usable block that a search for these orders reaches. */
  ghost predicate CanGrant(a: Area, al: nat, sz: nat)
    requires a.Sized()
  {
    exists s: nat, k: nat :: al <= k && sz <= k <= a.maxOrder && a.FreeBlock(s, k)
  }

  lemma AllocFailsExactly(a: Area, al: nat, sz: nat)
    requires a.Valid() && al < NLISTS && sz < NLISTS
    ensures Alloc(a, al, sz).block.Some? <==> CanGrant(a, al, sz)
  {
    hide Alloc, Area.Valid;
    AllocFails(a, al, sz);
  }

  // ----- Best fit -----

  /** The second halves that splitting the block at s from order k down to sz leaves behind. */
  ghost function Halves(s: nat, sz: nat, k: nat): (r: iset<(nat, nat)>) {
    iset b: (nat, nat) | sz <= b.1 < k && b.0 == s + Pow2(b.1)
  }

  lemma {:induction false} SplitDownBlocks(a: Area, s: nat, k: nat, sz: nat)
    requires a.Valid() && a.FreeBlock(s, k) && sz <= k
    ensures SplitDown(a, s, k, sz).Sized()
    ensures SplitDown(a, s, k, sz).FreeBlocks() == a.FreeBlocks() - iset{(s, k)} + iset{(s, sz)} + Halves(s, sz, k)
    decreases k
  {
    hide Exact, Area.TiledIn, Area.FreshBounded, Aligned, Split, Area.FreeBlocks, SameUse;
    if k > sz {
      WholeBlock(a, s, k);
      SplitKeeps(a, s, k);
      SplitFreeBlocks(a, s, k);
      var b := Split(a, s);
      SplitDownBlocks(b, s, k - 1, sz);
      hide Halves;
      HalvesStep(a.FreeBlocks(), b.FreeBlocks(), s, k, sz);
    } else {
      assert Halves(s, sz, k) == iset{};
      assert (s, k) in a.FreeBlocks() by { InFreeBlocks(a, s, k); }
    }
  }

  lemma HalvesStep(f: iset<(nat, nat)>, g: iset<(nat, nat)>, s: nat, k: nat, sz: nat)
    requires sz < k && (forall j :: (s, j) in f ==> j == k)
    requires g == f - iset{(s, k)} + iset{(s, k - 1), (s + Pow2(k - 1), k - 1)}
    ensures g - iset{(s, k - 1)} + iset{(s, sz)} + Halves(s, sz, k - 1) ==
            f - iset{(s, k)} + iset{(s, sz)} + Halves(s, sz, k)
  {
    assert Halves(s, sz, k) == Halves(s, sz, k - 1) + iset{(s + Pow2(k - 1), k - 1)};
    assert f - iset{(s, k)} == g - iset{(s, k - 1)} - iset{(s + Pow2(k - 1), k - 1)} + (f - iset{(s, k)});
  }

  lemma InFreeBlocks(a: Area, s: nat, k: nat)
    requires a.Sized() && a.FreeBlock(s, k)
    ensures (s, k) in a.FreeBlocks()
  {
  }

  lemma NotHalf(s: nat, sz: nat, k: nat)
    ensures forall j :: (s, j) !in Halves(s, sz, k)
  {
  }

  lemma TakeFreeBlocks(a: Area, s: nat, k: nat)
    requires a.Sized() && IsBlock(a, s, k)
    ensures Take(a, s, k).Sized() && Take(a, s, k).FreeBlocks() == a.FreeBlocks() - iset{(s, k)}
  {
    hide Take;
    var b, v := Take(a, s, k), STATUS_ALLOCATED + k;
    TakeStates(a, s, k);
    forall x: nat, j: nat ensures (x, j) in b.FreeBlocks() <==> (x, j) in a.FreeBlocks() - iset{(s, k)} {
      RecolourBlocks(a, b, s, k, v, x, j);
    }
  }

  lemma TakeStates(a: Area, s: nat, k: nat)
    requires a.Sized() && IsBlock(a, s, k)
    ensures var b := Take(a, s, k);
      b.Sized() && b.base == a.base && b.top == a.top && b.states == Painted(a, s, Pow2(k), STATUS_ALLOCATED + k).states
  {
  }

  /** An allocation takes a block of the least order that is large enough and has one, keeps its first part and
      gives back exactly the halves split off; no other free block changes. */
  lemma AllocBestFit(a: Area, al: nat, sz: nat) returns (k: nat)
    requires a.Valid() && al < NLISTS && sz < NLISTS && CanGrant(a, al, sz)
    ensures var r := Alloc(a, al, sz);
      && r.block.Some? && r.area.Sized()
      && al <= k && sz <= k <= a.maxOrder && a.FreeBlock(r.block.value, k)
      && (forall x: nat, j: nat :: al <= j && sz <= j < k ==> !a.FreeBlock(x, j))
      && r.area.FreeBlocks() == a.FreeBlocks() - iset{(r.block.value, k)} + Halves(r.block.value, sz, k)
  {
    hide Exact, Area.TiledIn, Area.FreshBounded, Aligned, Take, Area.FreeBlocks, SameUse;
    AllocFailsExactly(a, al, sz);
    k := FirstOrder(a, if sz > al then sz else al);
    FirstIsBlock(a, k);
    var s := a.lists[k][0];
    SplitDownKeeps(a, s, k, sz);
    var b := SplitDown(a, s, k, sz);
    WholeBlock(b, s, sz);
    SplitDownBlocks(a, s, k, sz);
    TakeFreeBlocks(b, s, sz);
    OnlyOrder(a, s, k, sz);
    NotHalf(s, sz, k);
    forall x: nat, j: nat | al <= j && sz <= j < k ensures !a.FreeBlock(x, j) {
      EmptyList(a, x, j);
    }
  }

  lemma OnlyOrder(a: Area, s: nat, k: nat, j: nat)
    requires a.Sized() && a.FreeBlock(s, k)
    ensures (s, j) in a.FreeBlocks() ==> j == k
  {
  }

  lemma EmptyList(a: Area, x: nat, j: nat)
    requires a.Valid() && j < NLISTS && a.lists[j] == []
    ensures !a.FreeBlock(x, j)
  {
    assert ExactAt(a.lists[j], j, a.FreeBlocks());
    assert (x, j) !in a.FreeBlocks();
  }

  /** max_order is lowered, by one, exactly when an allocation splits the only block of that order. */
  lemma AllocMaxOrder(a: Area, al: nat, sz: nat, k: nat)
    requires a.Valid() && al < NLISTS && sz < NLISTS && Alloc(a, al, sz).block.Some?
    requires a.FreeBlock(Alloc(a, al, sz).block.value, k)
    ensures Alloc(a, al, sz).area.maxOrder ==
            if k == a.maxOrder && k > sz && |a.lists[k]| == 1 then k - 1 else a.maxOrder
  {
    hide Exact, Area.TiledIn, Area.FreshBounded, Aligned, SameUse;
    var i := FirstOrder(a, if sz > al then sz else al);
    FirstIsBlock(a, i);
    var s := a.lists[i][0];
    assert i == k;
    SplitDownMax(a, s, k, sz);
    SplitDownKeeps(a, s, k, sz);
    WholeBlock(SplitDown(a, s, k, sz), s, sz);
  }

  lemma {:induction false} SplitDownMax(a: Area, s: nat, k: nat, sz: nat)
    requires a.Valid() && a.FreeBlock(s, k) && sz <= k
    ensures SplitDown(a, s, k, sz).maxOrder ==
            if k == a.maxOrder && k > sz && |a.lists[k]| == 1 then k - 1 else a.maxOrder
    decreases k
  {
    hide Exact, Area.TiledIn, Area.FreshBounded, Aligned, SameUse, SplitDown, Split;
    if k > sz {
      SplitKeeps(a, s, k);
      SplitMax(a, s, k);
      SplitDownStep(a, s, k, sz);
      SplitDownMax(Split(a, s), s, k - 1, sz);
    } else {
      SplitDownEnd(a, s, k, sz);
    }
  }

  lemma SplitDownStep(a: Area, s: nat, k: nat, sz: nat)
    requires a.Valid() && a.FreeBlock(s, k) && sz < k
    ensures IsBlock(a, s, k) && Split(a, s).Valid() && Split(a, s).FreeBlock(s, k - 1)
    ensures SplitDown(a, s, k, sz) == SplitDown(Split(a, s), s, k - 1, sz)
  {
    hide Exact, Area.TiledIn, Area.FreshBounded, Aligned, SameUse, Split;
    SplitKeeps(a, s, k);
  }

  lemma SplitDownEnd(a: Area, s: nat, k: nat, sz: nat)
    requires a.Valid() && a.FreeBlock(s, k) && sz >= k
    ensures SplitDown(a, s, k, sz) == a
  {
  }

  lemma SplitMax(a: Area, s: nat, k: nat)
    requires a.Valid() && a.FreeBlock(s, k) && 0 < k
    ensures IsBlock(a, s, k)
    ensures Split(a, s).maxOrder == if k == a.maxOrder && |a.lists[k]| == 1 then k - 1 else a.maxOrder
    ensures |Split(a, s).lists| == NLISTS && |Split(a, s).lists[k - 1]| >= 2
  {
    hide Area.TiledIn, Area.FreshBounded;
    WholeBlock(a, s, k);
    assert ExactAt(a.lists[k], k, a.FreeBlocks());
    assert (s, k) in a.FreeBlocks();
    assert |Without(a.lists[k], s)| == |a.lists[k]| - 1;
  }

  /** Freeing gives back exactly the block, not fresh, and never raises max_order. */
  lemma FreeGivesBack(a: Area, s: nat)
    requires a.Valid() && Free(a, s).Some?
    ensures var b, k := Free(a, s).value, OrderOf(a.At(s));
      && b.Sized() && b.Contains(s) && b.FreeBlocks() == a.FreeBlocks() + iset{(s, k)}
      && !IsFresh(b.At(s)) && b.maxOrder == a.maxOrder
  {
    hide Exact, Area.TiledIn, Area.FreshBounded, Aligned, Release;
    var k := OrderOf(a.At(s));
    ReleaseKeeps(a, s, k);
    ReleaseStates(a, s, k);
    var b := Release(a, s, k);
    forall x: nat, j: nat ensures (x, j) in b.FreeBlocks() <==> (x, j) in a.FreeBlocks() + iset{(s, k)} {
      RecolourBlocks(a, b, s, k, STATUS_FREE + k, x, j);
    }
  }

  lemma ReleaseStates(a: Area, s: nat, k: nat)
    requires a.Sized() && IsBlock(a, s, k)
    ensures var b := Release(a, s, k);
      && b.Sized() && b.base == a.base && b.top == a.top && b.maxOrder == a.maxOrder
      && b.states == Painted(a, s, Pow2(k), STATUS_FREE + k).states && b.At(s) == STATUS_FREE + k
      && b.lists == a.lists[k := [s] + a.lists[k]]
  {
  }

  // ----- Dirty blocks first -----

  /** On the list l no block that was used before comes behind a fresh one. */
  ghost predicate DirtyFirstOn(a: Area, l: seq<nat>)
    requires a.Sized()
  {
    && (forall i :: 0 <= i < |l| ==> a.Contains(l[i]))
    && (forall i, j :: 0 <= i < j < |l| && IsFresh(a.At(l[i])) ==> IsFresh(a.At(l[j])))
  }

  ghost predicate DirtyFirst(a: Area)
    requires a.Sized()
  {
    forall k :: 0 <= k < NLISTS ==> DirtyFirstOn(a, a.lists[k])
  }

  /** The blocks of l are as fresh in b as in a. */
  ghost predicate SameFreshOn(a: Area, b: Area, l: seq<nat>)
    requires a.Sized() && b.Sized()
  {
    && a.base == b.base && a.top == b.top
    && forall i :: 0 <= i < |l| && a.Contains(l[i]) ==> IsFresh(b.At(l[i])) == IsFresh(a.At(l[i]))
  }

  lemma DirtyStays(a: Area, b: Area, l: seq<nat>)
    requires a.Sized() && b.Sized() && DirtyFirstOn(a, l) && SameFreshOn(a, b, l)
    ensures DirtyFirstOn(b, l)
  {
  }

  lemma PaintedOutside(a: Area, b: Area, s: nat, n: nat, v: nat, l: seq<nat>)
    requires a.Sized() && b.Sized() && a.base == b.base && a.top == b.top && a.base <= s && s + n <= a.top
    requires b.states == Painted(a, s, n, v).states && forall i :: 0 <= i < |l| ==> !(s <= l[i] < s + n)
    ensures SameFreshOn(a, b, l)
  {
  }

  lemma DirtyWithout(a: Area, l: seq<nat>, x: nat)
    requires a.Sized() && DirtyFirstOn(a, l)
    ensures DirtyFirstOn(a, Without(l, x))
  {
    hide Without;
    var t := Without(l, x);
    var n := WithoutIndex(l, x);
    forall i | 0 <= i < |t| ensures a.Contains(t[i]) {
      assert t[i] == l[if i < n then i else i + 1];
    }
    forall i, j | 0 <= i < j < |t| && IsFresh(a.At(t[i])) ensures IsFresh(a.At(t[j])) {
      assert t[i] == l[if i < n then i else i + 1] && t[j] == l[if j < n then j else j + 1];
    }
  }

  lemma WithoutIndex(l: seq<nat>, x: nat) returns (n: nat)
    ensures |Without(l, x)| <= |l| && (n >= |l| ==> Without(l, x) == l) && (n < |l| ==> |Without(l, x)| == |l| - 1)
    ensures forall i :: 0 <= i < |Without(l, x)| ==>
      (if i < n then i else i + 1) < |l| && Without(l, x)[i] == l[if i < n then i else i + 1]
  {
    hide IndexOf;
    n := if x in l then IndexOf(l, x) else |l|;
  }

  lemma DirtyFront(a: Area, l: seq<nat>, x: nat)
    requires a.Sized() && DirtyFirstOn(a, l) && a.Contains(x) && !IsFresh(a.At(x))
    ensures DirtyFirstOn(a, [x] + l)
  {
  }

  lemma FreshBack(a: Area, l: seq<nat>, x: nat)
    requires a.Sized() && DirtyFirstOn(a, l) && a.Contains(x) && IsFresh(a.At(x))
    ensures DirtyFirstOn(a, l + [x])
  {
  }

  lemma SplitSameFresh(a: Area, s: nat, k: nat, p: nat)
    requires a.Sized() && IsBlock(a, s, k) && 0 < k && a.Contains(p)
    ensures Split(a, s).Sized() && Split(a, s).Contains(p) && IsFresh(Split(a, s).At(p)) == IsFresh(a.At(p))
  {
  }

  lemma SplitDirtyFirst(a: Area, s: nat, k: nat)
    requires a.Valid() && a.FreeBlock(s, k) && 0 < k && DirtyFirst(a)
    ensures IsBlock(a, s, k) && Split(a, s).Sized() && DirtyFirst(Split(a, s))
  {
    hide Exact, Area.TiledIn, Area.FreshBounded, Aligned, DirtyFirstOn, Split;
    WholeBlock(a, s, k);
    var b, h := Split(a, s), s + Pow2(k - 1);
    SplitListsAre(a, s, k);
    forall p | a.Contains(p) ensures b.Contains(p) && IsFresh(b.At(p)) == IsFresh(a.At(p)) {
      SplitSameFresh(a, s, k, p);
    }
    forall l | DirtyFirstOn(a, l) ensures DirtyFirstOn(b, l) {
      DirtyStays(a, b, l);
    }
    forall j | 0 <= j < NLISTS ensures DirtyFirstOn(b, b.lists[j]) {
      assert DirtyFirstOn(a, a.lists[j]);
      if j == k {
        DirtyWithout(a, a.lists[k], s);
      } else if j == k - 1 {
        var low := a.lists[k - 1];
        assert a.At(h) == a.At(s);
        if IsFresh(a.At(s)) {
          FreshBack(a, low, s);
          FreshBack(a, low + [s], h);
          assert low + [s] + [h] == low + [s, h];
        } else {
          DirtyFront(a, low, s);
          DirtyFront(a, [s] + low, h);
          assert [h] + ([s] + low) == [h, s] + low;
        }
      }
    }
  }

  lemma SplitListsAre(a: Area, s: nat, k: nat)
    requires a.Sized() && IsBlock(a, s, k) && 0 < k
    ensures var h, low := s + Pow2(k - 1), a.lists[k - 1];
      Split(a, s).lists == a.lists[k := Without(a.lists[k], s)]
                                  [k - 1 := if IsFresh(a.At(s)) then low + [s, h] else [h, s] + low]
  {
  }

  lemma {:induction false} SplitDownDirtyFirst(a: Area, s: nat, k: nat, sz: nat)
    requires a.Valid() && a.FreeBlock(s, k) && sz <= k && DirtyFirst(a)
    ensures SplitDown(a, s, k, sz).Sized() && DirtyFirst(SplitDown(a, s, k, sz))
    decreases k
  {
    hide Exact, Area.TiledIn, Area.FreshBounded, Aligned, DirtyFirst, SplitDown, Split;
    if k > sz {
      SplitDirtyFirst(a, s, k);
      SplitDownStep(a, s, k, sz);
      SplitDownDirtyFirst(Split(a, s), s, k - 1, sz);
    } else {
      SplitDownEnd(a, s, k, sz);
    }
  }

  lemma TakeDirtyFirst(a: Area, s: nat, k: nat)
    requires a.Valid() && a.FreeBlock(s, k) && DirtyFirst(a)
    ensures IsBlock(a, s, k) && Take(a, s, k).Sized() && DirtyFirst(Take(a, s, k))
  {
    hide Area.TiledIn, Area.FreshBounded, Exact, Aligned, DirtyFirstOn, Take, Painted, SameFreshOn, Without, Pow2;
    WholeBlock(a, s, k);
    TakeStates(a, s, k);
    TakeLists(a, s, k);
    var b := Take(a, s, k);
    forall j | 0 <= j < NLISTS ensures DirtyFirstOn(b, b.lists[j]) {
      assert DirtyFirstOn(a, a.lists[j]);
      if j == k { DirtyWithout(a, a.lists[k], s); }
      OutsideBlock(a, s, k, j);
      PaintedOutside(a, b, s, Pow2(k), STATUS_ALLOCATED + k, b.lists[j]);
      DirtyStays(a, b, b.lists[j]);
    }
  }

  lemma TakeLists(a: Area, s: nat, k: nat)
    requires a.Sized() && IsBlock(a, s, k)
    ensures Take(a, s, k).lists == a.lists[k := Without(a.lists[k], s)]
  {
  }

  /** Only the first page of a free block is on a list, so taking the block leaves the others' pages alone. */
  lemma OutsideBlock(a: Area, s: nat, k: nat, j: nat)
    requires a.Valid() && a.FreeBlock(s, k) && IsBlock(a, s, k) && j < NLISTS
    ensures var l := if j == k then Without(a.lists[j], s) else a.lists[j];
      forall i :: 0 <= i < |l| ==> a.Contains(l[i]) && !(s <= l[i] < s + Pow2(k))
  {
    hide Area.TiledIn, Area.FreshBounded, Aligned;
    assert ExactAt(a.lists[j], j, a.FreeBlocks());
    WithoutMembers(a.lists[j], s);
    var l := if j == k then Without(a.lists[j], s) else a.lists[j];
    forall i | 0 <= i < |l| ensures a.Contains(l[i]) && !(s <= l[i] < s + Pow2(k)) {
      assert l[i] in l && l[i] in a.lists[j];
      assert (l[i], j) in a.FreeBlocks();
      if s <= l[i] < s + Pow2(k) {
        assert a.At(l[i]) == a.At(s);
        OnlyStartAligned(s, k, l[i]);
        assert false;
      }
    }
  }

  /** Allocation keeps blocks that were used before in front of fresh ones, and takes one of them if the chosen
      order has any. */
  lemma AllocDirtyFirst(a: Area, al: nat, sz: nat)
    requires a.Valid() && al < NLISTS && sz < NLISTS && DirtyFirst(a)
    ensures var r := Alloc(a, al, sz);
      && r.area.Sized() && DirtyFirst(r.area)
      && (r.block.Some? ==>
            a.Contains(r.block.value) &&
            forall x: nat, k: nat :: a.FreeBlock(x, k) && a.FreeBlock(r.block.value, k) && !IsFresh(a.At(x)) ==>
              !IsFresh(a.At(r.block.value)))
  {
    hide Exact, Area.TiledIn, Area.FreshBounded, Aligned, DirtyFirst, Take;
    var k := FirstOrder(a, if sz > al then sz else al);
    if k <= a.maxOrder {
      FirstIsBlock(a, k);
      var s := a.lists[k][0];
      SplitDownKeeps(a, s, k, sz);
      SplitDownDirtyFirst(a, s, k, sz);
      TakeDirtyFirst(SplitDown(a, s, k, sz), s, sz);
      forall x: nat, j: nat | a.FreeBlock(x, j) && a.FreeBlock(s, j) && !IsFresh(a.At(x)) ensures !IsFresh(a.At(s)) {
        FirstIsDirtiest(a, k, x);
      }
    }
  }

  lemma FirstIsDirtiest(a: Area, k: nat, x: nat)
    requires a.Valid() && DirtyFirst(a) && k < NLISTS && a.lists[k] != [] && a.FreeBlock(x, k) && !IsFresh(a.At(x))
    ensures a.Contains(a.lists[k][0]) && !IsFresh(a.At(a.lists[k][0]))
  {
    hide Area.TiledIn, Area.FreshBounded, Aligned;
    assert ExactAt(a.lists[k], k, a.FreeBlocks());
    assert (x, k) in a.FreeBlocks();
    assert DirtyFirstOn(a, a.lists[k]);
    var i :| 0 <= i < |a.lists[k]| && a.lists[k][i] == x;
  }

  lemma FreeDirtyFirst(a: Area, s: nat)
    requires a.Valid() && Free(a, s).Some? && DirtyFirst(a)
    ensures Free(a, s).value.Sized() && DirtyFirst(Free(a, s).value)
  {
    hide Exact, Area.TiledIn, Area.FreshBounded, Aligned, DirtyFirstOn, Release, Painted, SameFreshOn, Pow2;
    var k := OrderOf(a.At(s));
    ReleaseKeeps(a, s, k);
    ReleaseStates(a, s, k);
    var b := Release(a, s, k);
    forall j | 0 <= j < NLISTS ensures DirtyFirstOn(b, b.lists[j]) {
      assert DirtyFirstOn(a, a.lists[j]);
      LiveOutside(a, s, k, j);
      PaintedOutside(a, b, s, Pow2(k), STATUS_FREE + k, a.lists[j]);
      DirtyStays(a, b, a.lists[j]);
      if j == k { DirtyFront(b, a.lists[k], s); }
    }
  }

  lemma LiveOutside(a: Area, s: nat, k: nat, j: nat)
    requires a.Valid() && a.LiveBlock(s, k) && IsBlock(a, s, k) && j < NLISTS
    ensures forall i :: 0 <= i < |a.lists[j]| ==> a.Contains(a.lists[j][i]) && !(s <= a.lists[j][i] < s + Pow2(k))
  {
    hide Area.TiledIn, Area.FreshBounded, Aligned;
    var l := a.lists[j];
    assert ExactAt(l, j, a.FreeBlocks());
    forall i | 0 <= i < |l| ensures a.Contains(l[i]) && !(s <= l[i] < s + Pow2(k)) {
      assert l[i] in l && (l[i], j) in a.FreeBlocks();
    }
  }

  /** An area that is fresh all over. */
  lemma FreshDirtyFirst(a: Area)
    requires a.Valid() && forall p :: a.Contains(p) ==> IsFresh(a.At(p))
    ensures DirtyFirst(a)
  {
    hide Area.TiledIn, Area.FreshBounded;
    forall k | 0 <= k < NLISTS ensures DirtyFirstOn(a, a.lists[k]) {
      var l := a.lists[k];
      assert ExactAt(l, k, a.FreeBlocks());
      forall i | 0 <= i < |l| ensures a.Contains(l[i]) {
        assert l[i] in l && (l[i], k) in a.FreeBlocks();
      }
    }
  }
}
