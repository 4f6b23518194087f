/** The waits-for graph of CPUs and its recursive deadlock check (lib/on-cpus.c). */
module Deadlock {
  import opened Basics

  /** graph[c] is the waiters mask of CPU c: the CPUs that wait on c. */
  type Graph = seq<set<nat>>

  ghost predicate WellFormed(g: Graph) {
    forall c, w :: 0 <= c < |g| && w in g[c] ==> w < |g|
  }

  /** p[k] waits on p[k+1], for each k. */
  ghost predicate Path(g: Graph, p: seq<nat>) {
    && |p| >= 2
    && (forall k :: 0 <= k < |p| ==> p[k] < |g|)
    && (forall k :: 0 <= k < |p| - 1 ==> p[k] in g[p[k + 1]])
  }

  /** i waits, directly or through others, on j. */
  ghost predicate WaitsOn(g: Graph, i: nat, j: nat) {
    exists p :: Path(g, p) && p[0] == i && p[|p| - 1] == j
  }

  ghost predicate Acyclic(g: Graph) {
    forall c: nat :: !WaitsOn(g, c, c)
  }

  /** rank decreases from every CPU to its waiters, except to those of `but`. */
  ghost predicate RankedBut(g: Graph, rank: seq<nat>, but: int) {
    && |rank| == |g|
    && forall c, w :: 0 <= c < |g| && w in g[c] && c != but ==> w < |g| && rank[w] < rank[c]
  }

  ghost predicate Ranked(g: Graph) {
    exists rank :: RankedBut(g, rank, -1)
  }

  // ----- Paths -----

  lemma PathSnoc(g: Graph, i: nat, k: nat, j: nat)
    requires j < |g| && k in g[j] && WaitsOn(g, i, k)
    ensures WaitsOn(g, i, j)
  {
    var p :| Path(g, p) && p[0] == i && p[|p| - 1] == k;
    var q := p + [j];
    assert forall x :: 0 <= x < |q| - 1 ==> q[x] in g[q[x + 1]] by {
      forall x | 0 <= x < |q| - 1 ensures q[x] in g[q[x + 1]] {
        if x < |p| - 1 { assert p[x] in g[p[x + 1]]; }
      }
    }
    assert Path(g, q) && q[0] == i && q[|q| - 1] == j;
  }

  lemma PathEdge(g: Graph, i: nat, j: nat)
    requires j < |g| && i < |g| && i in g[j]
    ensures WaitsOn(g, i, j)
  {
    assert Path(g, [i, j]) && [i, j][0] == i && [i, j][|[i, j]| - 1] == j;
  }

  /** To wait on j is to be, or to wait on, one of its waiters. */
  lemma WaitsOnStep(g: Graph, i: nat, j: nat)
    requires WellFormed(g) && j < |g|
    ensures WaitsOn(g, i, j) <==> exists k :: k in g[j] && (k == i || WaitsOn(g, i, k))
  {
    if WaitsOn(g, i, j) {
      var p :| Path(g, p) && p[0] == i && p[|p| - 1] == j;
      var q := p[..|p| - 1];
      var k := q[|q| - 1];
      assert p[|p| - 2] in g[p[|p| - 1]];
      if k != i {
        assert Path(g, q) && q[0] == i && q[|q| - 1] == k;
      }
    }
    if k :| k in g[j] && (k == i || WaitsOn(g, i, k)) {
      if WaitsOn(g, i, k) { PathSnoc(g, i, k, j); } else { PathEdge(g, i, j); }
    }
  }

  lemma {:induction false} RankDecreases(g: Graph, rank: seq<nat>, p: seq<nat>)
    requires RankedBut(g, rank, -1) && Path(g, p)
    ensures rank[p[0]] < rank[p[|p| - 1]]
    decreases |p|
  {
    assert p[|p| - 2] in g[p[|p| - 1]];
    if |p| > 2 {
      var q := p[..|p| - 1];
      assert Path(g, q);
      RankDecreases(g, rank, q);
    }
  }

  lemma RankedIsAcyclic(g: Graph)
    requires Ranked(g)
    ensures Acyclic(g)
  {
    var rank :| RankedBut(g, rank, -1);
    forall c: nat ensures !WaitsOn(g, c, c) {
      if p :| Path(g, p) && p[0] == c && p[|p| - 1] == c {
        RankDecreases(g, rank, p);
        assert false;
      }
    }
  }

  lemma EmptyIsAcyclic(g: Graph)
    requires forall c :: 0 <= c < |g| ==> g[c] == {}
    ensures WellFormed(g) && Acyclic(g)
  {
    assert RankedBut(g, seq(|g|, _ => 0), -1);
    RankedIsAcyclic(g);
  }

  ghost predicate HasWaiterIn(g: Graph, s: set<nat>, c: nat)
    requires c < |g|
  {
    exists w :: w in g[c] && w in s
  }

  lemma WaiterIn(g: Graph, s: set<nat>, c: nat) returns (w: nat)
    requires c < |g| && HasWaiterIn(g, s, c)
    ensures w in g[c] && w in s
  {
    w :| w in g[c] && w in s;
  }

  /** A walk of n steps back through s, each CPU waiting on the next. */
  lemma {:induction false} WalkBack(g: Graph, s: set<nat>, n: nat, c: nat) returns (p: seq<nat>)
    requires c in s && forall x :: x in s ==> x < |g| && HasWaiterIn(g, s, x)
    ensures |p| == n + 1 && p[n] == c && (forall k :: 0 <= k <= n ==> p[k] in s)
    ensures forall k :: 0 <= k < n ==> p[k] in g[p[k + 1]]
  {
    hide HasWaiterIn;
    if n == 0 {
      p := [c];
    } else {
      var w := WaiterIn(g, s, c);
      var q := WalkBack(g, s, n - 1, w);
      p := q + [c];
      forall k | 0 <= k < n ensures p[k] in g[p[k + 1]] {
        if k < n - 1 { assert q[k] in g[q[k + 1]]; }
      }
    }
  }

  lemma {:induction false} DistinctFits(p: seq<nat>, s: set<nat>)
    requires forall i, j :: 0 <= i < j < |p| ==> p[i] != p[j]
    requires forall k :: 0 <= k < |p| ==> p[k] in s
    ensures |p| <= |s|
  {
    if p != [] {
      var l := |p| - 1;
      forall k | 0 <= k < l ensures p[..l][k] in s - {p[l]} {
        assert p[k] != p[l];
      }
      DistinctFits(p[..l], s - {p[l]});
    }
  }

  lemma Repeats(p: seq<nat>, s: set<nat>) returns (i: nat, j: nat)
    requires |p| > |s| && forall k :: 0 <= k < |p| ==> p[k] in s
    ensures i < j < |p| && p[i] == p[j]
  {
    if forall i, j :: 0 <= i < j < |p| ==> p[i] != p[j] {
      DistinctFits(p, s);
    }
    i, j :| 0 <= i < j < |p| && p[i] == p[j];
  }

  /** If every CPU of a set has a waiter in it, there is a cycle. */
  lemma CycleWithin(g: Graph, s: set<nat>, c: nat) returns (d: nat)
    requires c in s && forall x :: x in s ==> x < |g| && HasWaiterIn(g, s, x)
    ensures WaitsOn(g, d, d)
  {
    hide HasWaiterIn;
    var p := WalkBack(g, s, |s|, c);
    var i, j := Repeats(p, s);
    var q := p[i..j + 1];
    forall k | 0 <= k < |q| - 1 ensures q[k] in g[q[k + 1]] {
      assert p[i + k] in g[p[i + k + 1]];
    }
    d := q[0];
    assert Path(g, q) && q[|q| - 1] == d;
  }

  /** Some CPU of a non-empty set has no waiter in it. */
  lemma MinimalExists(g: Graph, s: set<nat>) returns (m: nat)
    requires Acyclic(g) && s != {} && forall c :: c in s ==> c < |g|
    ensures m in s && forall w :: w in g[m] ==> w !in s
  {
    m :| m in s;
    if forall x :: x in s ==> HasWaiterIn(g, s, x) {
      var d := CycleWithin(g, s, m);
      assert false;
    }
    m :| m in s && !HasWaiterIn(g, s, m);
  }

  lemma {:induction false} RankWithin(g: Graph, s: set<nat>) returns (rank: seq<nat>)
    requires Acyclic(g) && forall c :: c in s ==> c < |g|
    ensures |rank| == |g| && forall c, w :: c in s && w in s && w in g[c] ==> rank[w] < rank[c]
    decreases |s|
  {
    if s == {} {
      rank := seq(|g|, _ => 0);
    } else {
      var m := MinimalExists(g, s);
      var r := RankWithin(g, s - {m});
      rank := seq(|g|, c requires 0 <= c < |g| => if c == m then 0 else r[c] + 1);
    }
  }

  /** A graph without cycles has a rank. */
  lemma AcyclicIsRanked(g: Graph)
    requires WellFormed(g) && Acyclic(g)
    ensures Ranked(g)
  {
    var rank := RankWithin(g, UpTo(|g|));
    assert RankedBut(g, rank, -1);
  }

  // ----- The check -----

  /** __deadlock_check: looks for cpu among the waiters, and among theirs, without remembering what it
      has visited. It ends because the rank falls along every edge it follows. */
  method Search(g: Graph, cpu: nat, waiters: set<nat>, ghost rank: seq<nat>, ghost bound: nat) returns (found: bool)
    requires WellFormed(g) && RankedBut(g, rank, cpu)
    requires forall w :: w in waiters ==> w < |g| && rank[w] < bound
    ensures found <==> exists w :: w in waiters && (w == cpu || WaitsOn(g, cpu, w))
    decreases bound
  {
    for i := 0 to |g|
      invariant forall w :: w in waiters && w < i ==> w != cpu && !WaitsOn(g, cpu, w)
    {
      if i in waiters {
        if i == cpu {
          return true;
        }
        WaitsOnStep(g, cpu, i);
        var f := Search(g, cpu, g[i], rank, rank[i]);
        if f {
          return true;
        }
      }
    }
    return false;
  }

  ghost function AddWaiter(g: Graph, cpu: nat, me: nat): (g': Graph)
    requires cpu < |g|
  {
    g[cpu := g[cpu] + {me}]
  }

  /** deadlock_check(me, cpu), after me was added to the waiters of cpu: it reports a deadlock exactly
      when cpu already waited, directly or through others, on me. */
  method Check(g: Graph, me: nat, cpu: nat, ghost g0: Graph) returns (found: bool)
    requires WellFormed(g0) && Acyclic(g0) && me < |g0| && cpu < |g0| && me != cpu
    requires g == AddWaiter(g0, cpu, me)
    ensures found <==> WaitsOn(g0, cpu, me)
  {
    AcyclicIsRanked(g0);
    ghost var rank :| RankedBut(g0, rank, -1);
    found := Search(g, cpu, g[me], rank, rank[me]);
    WaitsOnStep(g, cpu, me);
    SameSearch(g0, cpu, me);
  }

  /** The new edge leaves cpu, so it is on no path that starts at cpu and has not met me before. */
  lemma SameSearch(g: Graph, cpu: nat, me: nat)
    requires WellFormed(g) && cpu < |g| && me < |g| && me != cpu
    ensures WaitsOn(AddWaiter(g, cpu, me), cpu, me) <==> WaitsOn(g, cpu, me)
  {
    var g' := AddWaiter(g, cpu, me);
    if p :| Path(g, p) && p[0] == cpu && p[|p| - 1] == me {
      assert Path(g', p);
    }
    if p :| Path(g', p) && p[0] == cpu && p[|p| - 1] == me {
      FirstMeeting(g, cpu, me, p);
    }
  }

  lemma {:induction false} FirstMeeting(g: Graph, cpu: nat, me: nat, p: seq<nat>)
    requires WellFormed(g) && cpu < |g| && me < |g| && me != cpu
    requires Path(AddWaiter(g, cpu, me), p) && p[0] == cpu && p[|p| - 1] == me
    ensures WaitsOn(g, cpu, me)
    decreases |p|
  {
    var g' := AddWaiter(g, cpu, me);
    if k :| 0 <= k < |p| - 1 && p[k] == me {
      var q := p[..k + 1];
      assert Path(g', q);
      FirstMeeting(g, cpu, me, q);
    } else {
      forall k | 0 <= k < |p| - 1 ensures p[k] in g[p[k + 1]] {
        assert p[k] in g'[p[k + 1]] && p[k] != me;
      }
      assert Path(g, p);
    }
  }

  lemma AddKeepsRanked(g: Graph, cpu: nat, me: nat)
    requires WellFormed(g) && Ranked(g) && cpu < |g| && me < |g| && me != cpu && !WaitsOn(g, cpu, me)
    ensures Ranked(AddWaiter(g, cpu, me))
  {
    var g' := AddWaiter(g, cpu, me);
    var rank :| RankedBut(g, rank, -1);
    // lift everything that cpu waits on, and cpu itself, above me
    var rank' := seq(|g|, c requires 0 <= c < |g| =>
      if c == cpu || WaitsOn(g, cpu, c) then rank[c] + rank[me] + 1 else rank[c]);
    forall c, w | 0 <= c < |g| && w in g'[c] ensures w < |g| && rank'[w] < rank'[c] {
      if w in g[c] {
        WaitsOnStep(g, cpu, c);
      }
    }
    assert RankedBut(g', rank', -1);
  }

  /** The graph with the new edge is acyclic exactly when the check finds nothing. */
  lemma CheckDecides(g: Graph, cpu: nat, me: nat)
    requires WellFormed(g) && Acyclic(g) && cpu < |g| && me < |g| && me != cpu
    ensures !WaitsOn(g, cpu, me) <==> Acyclic(AddWaiter(g, cpu, me))
  {
    var g' := AddWaiter(g, cpu, me);
    if !WaitsOn(g, cpu, me) {
      AcyclicIsRanked(g);
      AddKeepsRanked(g, cpu, me);
      RankedIsAcyclic(g');
    } else {
      SameSearch(g, cpu, me);
      PathSnoc(g', cpu, me, cpu);
    }
  }

  lemma WaitsOnMono(g: Graph, g': Graph, i: nat, j: nat)
    requires |g| == |g'| && forall c :: 0 <= c < |g| ==> g[c] <= g'[c]
    ensures WaitsOn(g, i, j) ==> WaitsOn(g', i, j)
  {
    if p :| Path(g, p) && p[0] == i && p[|p| - 1] == j {
      forall k | 0 <= k < |p| - 1 ensures p[k] in g'[p[k + 1]] {
        assert p[k] in g[p[k + 1]];
      }
      assert Path(g', p);
    }
  }

  /** Taking a waiter away keeps the graph acyclic. */
  lemma DropKeepsAcyclic(g: Graph, cpu: nat, me: nat)
    requires Acyclic(g) && cpu < |g|
    ensures Acyclic(g[cpu := g[cpu] - {me}])
  {
    var g' := g[cpu := g[cpu] - {me}];
    forall c: nat ensures !WaitsOn(g', c, c) {
      WaitsOnMono(g', g, c, c);
    }
  }
}
