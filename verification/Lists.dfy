/** Intrusive circular doubly linked lists (lib/list.h) and the family of free lists that the
    page allocator threads through free pages. */
module Lists {
  import opened Basics

  /** Where a list item is stored: in a list head of the area, or at the start of a page. */
  datatype Addr = Null | Head(order: nat) | Page(pfn: nat)

  /** struct linked_list. */
  datatype Link = Link(prev: Addr, next: Addr)

  /** The memory that holds list items. */
  type Links = map<Addr, Link>

  function Succ(c: seq<Addr>, i: nat): (a: Addr)
    requires i < |c|
  {
    if i + 1 < |c| then c[i + 1] else c[0]
  }

  function Pred(c: seq<Addr>, i: nat): (a: Addr)
    requires i < |c|
  {
    if i == 0 then c[|c| - 1] else c[i - 1]
  }

  /** The items of c, in this order, form one closed prev/next cycle; c[0] plays the list head. */
  ghost predicate Ring(m: Links, c: seq<Addr>) {
    && |c| >= 1
    && Distinct(c)
    && forall i :: 0 <= i < |c| ==> c[i] != Null && c[i] in m && m[c[i]] == Link(Pred(c, i), Succ(c, i))
  }

  /** No item of one cycle is an item of the other. */
  ghost predicate Apart(c: seq<Addr>, d: seq<Addr>) {
    forall a :: a in c ==> a !in d
  }

  /** Memory differs at most in the items of c. */
  ghost predicate OnlyChanged(m: Links, m': Links, c: seq<Addr>) {
    forall a :: a !in c ==> (a in m' <==> a in m) && (a in m ==> m'[a] == m[a])
  }

  /** A list that shares no item with the changed one is untouched. */
  lemma RingUntouched(m: Links, m': Links, c: seq<Addr>, d: seq<Addr>)
    requires Ring(m, d) && OnlyChanged(m, m', c) && Apart(d, c)
    ensures Ring(m', d)
  {
    assert forall i :: 0 <= i < |d| ==> d[i] in d;
  }

  ghost function Inserted(c: seq<Addr>, i: nat, li: Addr): (d: seq<Addr>)
    requires i < |c|
  {
    c[..i + 1] + [li] + c[i + 1..]
  }

  ghost function Deleted(c: seq<Addr>, i: nat): (d: seq<Addr>)
    requires i < |c|
  {
    c[..i] + c[i + 1..]
  }

  lemma InsertedShape(c: seq<Addr>, i: nat, li: Addr, j: nat)
    requires i < |c| && j <= |c|
    ensures var d := Inserted(c, i, li);
      && (j == i + 1 ==> d[j] == li && Pred(d, j) == c[i] && Succ(d, j) == Succ(c, i))
      && (j != i + 1 ==>
            var k := if j <= i then j else j - 1;
            && d[j] == c[k]
            && Pred(d, j) == (if k == i + 1 || (k == 0 && i == |c| - 1) then li else Pred(c, k))
            && Succ(d, j) == (if k == i then li else Succ(c, k)))
  {
  }

  lemma InsertedDistinct(c: seq<Addr>, i: nat, li: Addr)
    requires Distinct(c) && i < |c| && li !in c
    ensures Distinct(Inserted(c, i, li))
  {
  }

  lemma InsertKeepsRing(m: Links, c: seq<Addr>, i: nat, li: Addr, m': Links)
    requires Ring(m, c) && i < |c| && li !in c && li != Null
    requires var n := Succ(c, i);
      && c[i] in m' && n in m' && li in m'
      && m'[li] == Link(c[i], n)
      && m'[c[i]] == Link(if n == c[i] then li else m[c[i]].prev, li)
      && (n != c[i] ==> m'[n] == Link(li, m[n].next))
      && forall a :: a in m && a != li && a != c[i] && a != n ==> a in m' && m'[a] == m[a]
    ensures Ring(m', Inserted(c, i, li))
  {
    var d := Inserted(c, i, li);
    InsertedDistinct(c, i, li);
    forall j: nat | j < |d| ensures d[j] != Null && d[j] in m' && m'[d[j]] == Link(Pred(d, j), Succ(d, j)) {
      InsertedShape(c, i, li, j);
      if j != i + 1 {
        var k := if j <= i then j else j - 1;
        assert c[k] in m && m[c[k]] == Link(Pred(c, k), Succ(c, k));
        assert c[k] == c[i] ==> k == i;
        assert c[k] == Succ(c, i) ==> k == i + 1 || (k == 0 && i == |c| - 1);
      }
    }
  }

  lemma DeletedShape(c: seq<Addr>, i: nat, j: nat)
    requires i < |c| && j < |c| - 1
    ensures var d, k := Deleted(c, i), if j < i then j else j + 1;
      && d[j] == c[k]
      && Pred(d, j) == (if k == i + 1 || (k == 0 && i == |c| - 1) then Pred(c, i) else Pred(c, k))
      && Succ(d, j) == (if k + 1 == i || (k == |c| - 1 && i == 0) then Succ(c, i) else Succ(c, k))
  {
  }

  lemma DeletedDistinct(c: seq<Addr>, i: nat)
    requires Distinct(c) && i < |c|
    ensures Distinct(Deleted(c, i))
  {
  }

  lemma DeleteKeepsRing(m: Links, c: seq<Addr>, i: nat, m': Links)
    requires Ring(m, c) && i < |c| && |c| > 1
    requires var p, n := Pred(c, i), Succ(c, i);
      && p in m' && n in m'
      && m'[p] == Link(if p == n then p else m[p].prev, n)
      && m'[n] == Link(p, if p == n then n else m[n].next)
      && forall a :: a in m && a != c[i] && a != p && a != n ==> a in m' && m'[a] == m[a]
    ensures Ring(m', Deleted(c, i))
  {
    var d := Deleted(c, i);
    DeletedDistinct(c, i);
    forall j: nat | j < |d| ensures d[j] != Null && d[j] in m' && m'[d[j]] == Link(Pred(d, j), Succ(d, j)) {
      DeletedShape(c, i, j);
      var k := if j < i then j else j + 1;
      assert c[k] in m && m[c[k]] == Link(Pred(c, k), Succ(c, k));
      assert c[k] != c[i];
      assert c[k] == Succ(c, i) <==> k == i + 1 || (k == 0 && i == |c| - 1);
      assert c[k] == Pred(c, i) <==> k + 1 == i || (k == |c| - 1 && i == 0);
    }
  }

  // ----- A family of free lists -----

  function IndexOf(s: seq<nat>, x: nat): (i: nat)
    requires x in s
    ensures i < |s| && s[i] == x
  {
    if s[0] == x then 0 else 1 + IndexOf(s[1..], x)
  }

  /** s with the occurrence of x taken out. */
  function Without(s: seq<nat>, x: nat): (r: seq<nat>) {
    if x in s then s[..IndexOf(s, x)] + s[IndexOf(s, x) + 1..] else s
  }

  lemma CutMembers(s: seq<nat>, i: nat)
    requires Distinct(s) && i < |s|
    ensures Distinct(s[..i] + s[i + 1..])
    ensures forall y :: y in s[..i] + s[i + 1..] <==> y in s && y != s[i]
  {
    var r := s[..i] + s[i + 1..];
    assert forall j :: 0 <= j < |r| ==> r[j] == s[if j < i then j else j + 1];
    forall y | y in s && y != s[i] ensures y in r {
      var j :| 0 <= j < |s| && s[j] == y;
      assert r[if j < i then j else j - 1] == y;
    }
  }

  lemma WithoutMembers(s: seq<nat>, x: nat)
    requires Distinct(s)
    ensures Distinct(Without(s, x))
    ensures forall y :: y in Without(s, x) <==> y in s && y != x
  {
    if x in s {
      CutMembers(s, IndexOf(s, x));
    }
  }

  /** The ring of list k when it holds the pages s. */
  ghost function RingOf(k: nat, s: seq<nat>): (c: seq<Addr>)
    ensures |c| == |s| + 1 && c[0] == Head(k) && forall i :: 0 <= i < |s| ==> c[i + 1] == Page(s[i])
  {
    [Head(k)] + seq(|s|, i requires 0 <= i < |s| => Page(s[i]))
  }

  /** Each page is on at most one list, and there at most once. */
  ghost predicate Exclusive(ls: seq<seq<nat>>) {
    && (forall k :: 0 <= k < |ls| ==> Distinct(ls[k]))
    && (forall j, k, p :: 0 <= j < |ls| && 0 <= k < |ls| && p in ls[j] && p in ls[k] ==> j == k)
  }

  /** The links in memory represent the lists ls. */
  ghost predicate Represents(m: Links, ls: seq<seq<nat>>) {
    forall k :: 0 <= k < |ls| ==> Ring(m, RingOf(k, ls[k]))
  }

  lemma RingMembers(k: nat, s: seq<nat>)
    ensures forall a :: a in RingOf(k, s) <==> a == Head(k) || (a.Page? && a.pfn in s)
  {
    var c := RingOf(k, s);
    forall a ensures a in c <==> a == Head(k) || (a.Page? && a.pfn in s) {
      if a == Head(k) {
        assert c[0] == a;
      } else if a.Page? && a.pfn in s {
        assert c[IndexOf(s, a.pfn) + 1] == a;
      }
    }
  }

  /** Rewiring list k, and possibly one page that is on no list, keeps every other list. */
  lemma OthersUntouched(m: Links, m': Links, ls: seq<seq<nat>>, k: nat, c: seq<Addr>)
    requires Represents(m, ls) && Exclusive(ls) && k < |ls| && OnlyChanged(m, m', c)
    requires forall a :: a in c ==>
      a in RingOf(k, ls[k]) || (a.Page? && forall j :: 0 <= j < |ls| ==> a.pfn !in ls[j])
    ensures forall j :: 0 <= j < |ls| && j != k ==> Ring(m', RingOf(j, ls[j]))
  {
    forall j | 0 <= j < |ls| && j != k ensures Ring(m', RingOf(j, ls[j])) {
      RingMembers(j, ls[j]);
      RingMembers(k, ls[k]);
      RingUntouched(m, m', c, RingOf(j, ls[j]));
    }
  }

  lemma RingWithoutAt(k: nat, s: seq<nat>, i: nat)
    requires i < |s|
    ensures RingOf(k, s[..i] + s[i + 1..]) == Deleted(RingOf(k, s), i + 1)
  {
    hide RingOf;
    var t := s[..i] + s[i + 1..];
    var c, d := RingOf(k, t), Deleted(RingOf(k, s), i + 1);
    assert |c| == |d| == |s|;
    forall j | 0 <= j < |c| ensures c[j] == d[j] {
      if j > 0 {
        assert c[j] == Page(t[j - 1]);
      }
    }
  }

  lemma RingWithout(k: nat, s: seq<nat>, p: nat)
    requires p in s
    ensures RingOf(k, Without(s, p)) == Deleted(RingOf(k, s), IndexOf(s, p) + 1)
  {
    hide RingOf, Deleted, IndexOf;
    RingWithoutAt(k, s, IndexOf(s, p));
  }

  lemma RingPrepend(k: nat, s: seq<nat>, p: nat)
    ensures RingOf(k, [p] + s) == Inserted(RingOf(k, s), 0, Page(p))
  {
    hide RingOf;
    var c, d := RingOf(k, [p] + s), Inserted(RingOf(k, s), 0, Page(p));
    assert |c| == |d|;
    forall j | 0 <= j < |c| ensures c[j] == d[j] {
      if j > 0 {
        assert c[j] == Page(([p] + s)[j - 1]);
      }
    }
  }

  lemma RingAppend(k: nat, s: seq<nat>, p: nat)
    ensures RingOf(k, s + [p]) == RingOf(k, s) + [Page(p)]
  {
    hide RingOf;
    var c, d := RingOf(k, s + [p]), RingOf(k, s) + [Page(p)];
    assert |c| == |d|;
    forall j | 0 <= j < |c| ensures c[j] == d[j] {
      if j > 0 {
        assert c[j] == Page((s + [p])[j - 1]);
      }
    }
  }

  lemma ExclusiveAdd(ls: seq<seq<nat>>, k: nat, s: seq<nat>, p: nat)
    requires Exclusive(ls) && k < |ls|
    requires forall j :: 0 <= j < |ls| ==> p !in ls[j]
    requires s == [p] + ls[k] || s == ls[k] + [p]
    ensures Exclusive(ls[k := s])
  {
  }

  /** The pages that are on some list. */
  ghost function ListedPages(ls: seq<seq<nat>>): (ps: iset<nat>) {
    iset p: nat | OnSome(ls, p)
  }

  ghost predicate OnSome(ls: seq<seq<nat>>, p: nat) {
    exists k :: 0 <= k < |ls| && p in ls[k]
  }

  lemma FewerListed(ls: seq<seq<nat>>, k: nat, s: seq<nat>, ps: iset<nat>)
    requires k < |ls| && forall p: nat :: p in s ==> p in ls[k] || p in ps
    ensures ListedPages(ls[k := s]) <= ListedPages(ls) + ps
  {
    forall p: nat | OnSome(ls[k := s], p) ensures OnSome(ls, p) || p in ps {
    }
  }

  lemma WithoutFewer(ls: seq<seq<nat>>, k: nat, x: nat)
    requires k < |ls| && Distinct(ls[k])
    ensures ListedPages(ls[k := Without(ls[k], x)]) <= ListedPages(ls)
  {
    WithoutMembers(ls[k], x);
    FewerListed(ls, k, Without(ls[k], x), iset{});
  }

  /** The links stored in pages other than ps are as before. */
  ghost predicate LinksKept(m: Links, m': Links, ps: iset<nat>) {
    forall p: nat :: p !in ps ==>
      (Page(p) in m' <==> Page(p) in m) && (Page(p) in m ==> m'[Page(p)] == m[Page(p)])
  }

  lemma NothingWritten(m: Links, ps: iset<nat>)
    ensures LinksKept(m, m, ps)
  {
  }

  lemma KeptTrans(m: Links, m1: Links, m2: Links, ps: iset<nat>, qs: iset<nat>, rs: iset<nat>)
    requires LinksKept(m, m1, ps) && LinksKept(m1, m2, qs) && ps <= rs && qs <= rs
    ensures LinksKept(m, m2, rs)
  {
  }

  /** Rewiring list k, and possibly the page p, writes links in listed pages and in p only. */
  lemma RewiringKept(m: Links, m': Links, ls: seq<seq<nat>>, k: nat, c: seq<Addr>, ps: iset<nat>)
    requires k < |ls| && OnlyChanged(m, m', c) && ListedPages(ls) <= ps
    requires forall a :: a in c ==> a in RingOf(k, ls[k]) || (a.Page? && a.pfn in ps)
    ensures LinksKept(m, m', ps)
  {
    RingMembers(k, ls[k]);
    assert forall p: nat :: p in ls[k] ==> p in ListedPages(ls);
  }

  /** An item on no list. */
  ghost predicate Unlinked(m: Links, p: Addr) {
    p in m && (m[p].next == Null || m[p].prev == Null)
  }

  /** Memory holding list items, with the free lists of an area among them. */
  class ListMemory {
    var links: Links
    ghost var lists: seq<seq<nat>>

    ghost predicate Valid()
      reads this
    {
      Exclusive(lists) && Represents(links, lists)
    }

    /** is_list_empty, on an unlinked item or any item of a ring: true exactly when there is no other item. */
    method IsListEmpty(p: Addr, ghost c: seq<Addr>) returns (e: bool)
      requires Unlinked(links, p) || (Ring(links, c) && p in c)
      ensures e <==> Unlinked(links, p) || |c| == 1
    {
      var l := links[p];
      e := l.next == Null || l.prev == Null || p == l.next || p == l.prev;
    }

    /** list_remove: takes exactly its argument out of the ring and unlinks it; an item that is unlinked or
        alone stays as it is. */
    method ListRemove(l: Addr, ghost c: seq<Addr>, ghost i: nat) returns (r: Addr)
      requires Unlinked(links, l) || (Ring(links, c) && i < |c| && c[i] == l)
      modifies this`links
      ensures old(Unlinked(links, l)) || |c| == 1 ==> r == Null && links == old(links)
      ensures !old(Unlinked(links, l)) && |c| > 1 ==>
        r == l && Ring(links, Deleted(c, i)) && l in links && links[l] == Link(Null, Null)
      ensures OnlyChanged(old(links), links, c)
    {
      var e := IsListEmpty(l, c);
      if e {
        return Null;
      }
      assert Pred(c, i) in c && Succ(c, i) in c;
      var prev, next := links[l].prev, links[l].next;
      links := links[prev := links[prev].(next := next)];
      links := links[next := links[next].(prev := prev)];
      links := links[l := Link(Null, Null)];
      DeleteKeepsRing(old(links), c, i, links);
      r := l;
    }

    /** list_add: inserts li right after item i of the ring. */
    method ListAdd(head: Addr, li: Addr, ghost c: seq<Addr>, ghost i: nat)
      requires Ring(links, c) && i < |c| && c[i] == head && li !in c && li != Null
      modifies this`links
      ensures Ring(links, Inserted(c, i, li))
      ensures OnlyChanged(old(links), links, c + [li])
    {
      assert Succ(c, i) in c;
      var next := links[head].next;
      links := links[li := Link(head, next)];
      links := links[next := links[next].(prev := li)];
      links := links[head := links[head].(next := li)];
      InsertKeepsRing(old(links), c, i, li, links);
    }

    /** list_add_tail: inserts li right before the head, at the end of the list. */
    method ListAddTail(head: Addr, li: Addr, ghost c: seq<Addr>)
      requires Ring(links, c) && c[0] == head && li !in c && li != Null
      modifies this`links
      ensures Ring(links, c + [li])
      ensures OnlyChanged(old(links), links, c + [li])
    {
      ListAdd(links[head].prev, li, c, |c| - 1);
      assert Inserted(c, |c| - 1, li) == c + [li];
    }

    /** Initialises n lists to empty rings. */
    constructor (n: nat)
      ensures Valid() && lists == seq(n, _ => [])
    {
      lists := seq(n, _ => []);
      links := map k: nat | k < n :: Head(k) := Link(Head(k), Head(k));
    }

    /** The first item of list k: freelists[k].next, tested with is_list_empty. */
    method First(k: nat) returns (found: bool, p: nat)
      requires Valid() && k < |lists|
      ensures found <==> lists[k] != []
      ensures found ==> p == lists[k][0]
    {
      ghost var c := RingOf(k, lists[k]);
      assert c[0] in c;
      var a := links[Head(k)].next;
      assert a == Succ(c, 0) && a in c;
      var e := IsListEmpty(a, c);
      if e {
        return false, 0;
      }
      return true, a.pfn;
    }

    /** The last item of list k: freelists[k].prev, unless is_list_empty holds of it. */
    method Last(k: nat) returns (found: bool, p: nat)
      requires Valid() && k < |lists|
      ensures found <==> lists[k] != []
      ensures found ==> p == lists[k][|lists[k]| - 1]
    {
      ghost var c := RingOf(k, lists[k]);
      assert c[0] in c;
      var a := links[Head(k)].prev;
      assert a == Pred(c, 0) && a in c;
      var e := IsListEmpty(a, c);
      if e {
        return false, 0;
      }
      return true, a.pfn;
    }

    method IsEmpty(k: nat) returns (e: bool)
      requires Valid() && k < |lists|
      ensures e <==> lists[k] == []
    {
      assert RingOf(k, lists[k])[0] == Head(k);
      e := IsListEmpty(Head(k), RingOf(k, lists[k]));
    }

    /** list_remove on a page that is on list k. */
    method Remove(p: nat, ghost k: nat)
      requires Valid() && k < |lists| && p in lists[k]
      modifies this
      ensures Valid()
      ensures lists == old(lists)[k := Without(old(lists)[k], p)]
      ensures LinksKept(old(links), links, ListedPages(old(lists)))
    {
      ghost var s := lists[k];
      ghost var c := RingOf(k, s);
      RingWithout(k, s, p);
      WithoutMembers(s, p);
      var r := ListRemove(Page(p), c, IndexOf(s, p) + 1);
      OthersUntouched(old(links), links, lists, k, c);
      RewiringKept(old(links), links, lists, k, c, ListedPages(lists));
      lists := lists[k := Without(s, p)];
    }

    /** list_add(freelists + k, page). */
    method AddFront(k: nat, p: nat)
      requires Valid() && k < |lists|
      requires forall j :: 0 <= j < |lists| ==> p !in lists[j]
      modifies this
      ensures Valid()
      ensures lists == old(lists)[k := [p] + old(lists)[k]]
      ensures LinksKept(old(links), links, ListedPages(old(lists)) + iset{p})
    {
      ghost var c := RingOf(k, lists[k]);
      RingPrepend(k, lists[k], p);
      RingMembers(k, lists[k]);
      ExclusiveAdd(lists, k, [p] + lists[k], p);
      ListAdd(Head(k), Page(p), c, 0);
      OthersUntouched(old(links), links, lists, k, c + [Page(p)]);
      RewiringKept(old(links), links, lists, k, c + [Page(p)], ListedPages(lists) + iset{p});
      lists := lists[k := [p] + lists[k]];
    }

    /** list_add_tail(freelists + k, page). */
    method AddTail(k: nat, p: nat)
      requires Valid() && k < |lists|
      requires forall j :: 0 <= j < |lists| ==> p !in lists[j]
      modifies this
      ensures Valid()
      ensures lists == old(lists)[k := old(lists)[k] + [p]]
      ensures LinksKept(old(links), links, ListedPages(old(lists)) + iset{p})
    {
      ghost var c := RingOf(k, lists[k]);
      RingAppend(k, lists[k], p);
      RingMembers(k, lists[k]);
      ExclusiveAdd(lists, k, lists[k] + [p], p);
      ListAddTail(Head(k), Page(p), c);
      OthersUntouched(old(links), links, lists, k, c + [Page(p)]);
      RewiringKept(old(links), links, lists, k, c + [Page(p)], ListedPages(lists) + iset{p});
      lists := lists[k := lists[k] + [p]];
    }
  }
}
