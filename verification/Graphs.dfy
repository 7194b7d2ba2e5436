/** Directed graphs as adjacency lists, paths, convexity, and quotients by node groups. */
module Graphs {

  /** `g[u]` lists the successors of node `u`; a parallel edge is a repeated entry. */
  type Graph = seq<seq<nat>>

  ghost predicate NoDup(s: seq<nat>) {
    forall i, j :: 0 <= i < j < |s| ==> s[i] != s[j]
  }

  ghost predicate Below(s: seq<nat>, n: nat) {
    forall i :: 0 <= i < |s| ==> s[i] < n
  }

  ghost function Elements(s: seq<nat>): (members: set<nat>) {
    set v | v in s
  }

  ghost function Range(n: nat): (s: set<nat>)
    ensures forall v :: v in s <==> 0 <= v < n
  {
    if n == 0 then {} else Range(n - 1) + {n - 1}
  }

  ghost predicate WellFormed(g: Graph) {
    forall u, v :: 0 <= u < |g| && v in g[u] ==> v < |g|
  }

  ghost predicate Edge(g: Graph, u: nat, v: nat) {
    u < |g| && v < |g| && v in g[u]
  }

  /** Both adjacency lists describe the same multigraph. */
  ghost predicate IsTranspose(succ: Graph, pred: Graph) {
    && |succ| == |pred|
    && WellFormed(succ)
    && WellFormed(pred)
    && forall u, v {:trigger multiset(succ[u])[v]} {:trigger multiset(pred[v])[u]} ::
         0 <= u < |succ| && 0 <= v < |succ| ==> multiset(succ[u])[v] == multiset(pred[v])[u]
  }

  lemma TransposeEdge(succ: Graph, pred: Graph, u: nat, v: nat)
    requires IsTranspose(succ, pred) && u < |succ| && v < |succ|
    ensures v in succ[u] <==> u in pred[v]
  {
    assert multiset(succ[u])[v] == multiset(pred[v])[u];
    assert v in succ[u] <==> v in multiset(succ[u]);
    assert u in pred[v] <==> u in multiset(pred[v]);
  }

  /** A schedule exists: a number per node that strictly grows along every edge. */
  ghost predicate IsRank(g: Graph, rank: seq<nat>) {
    |rank| == |g| && forall u: nat, v: nat :: Edge(g, u, v) ==> rank[u] < rank[v]
  }

  ghost predicate Acyclic(g: Graph) {
    exists rank :: IsRank(g, rank)
  }

  /** Node indices are already a schedule. */
  ghost predicate Ordered(g: Graph) {
    forall u: nat, v: nat :: Edge(g, u, v) ==> u < v
  }

  ghost predicate NoLoops(g: Graph) {
    forall u: nat :: !Edge(g, u, u)
  }

  // ---- Paths and convexity ----------------------------------------------------------------------

  ghost predicate Path(g: Graph, p: seq<nat>) {
    && |p| > 0
    && (forall k :: 0 <= k < |p| ==> p[k] < |g|)
    && forall k :: 0 < k < |p| ==> Edge(g, p[k - 1], p[k])
  }

  /** A nonempty walk leads from `u` to `v`. */
  ghost predicate Reaches(g: Graph, u: nat, v: nat) {
    exists p :: Path(g, p) && |p| >= 2 && p[0] == u && p[|p| - 1] == v
  }

  /** No outside node lies on a path between two members. */
  ghost predicate Convex(g: Graph, s: set<nat>) {
    forall p :: Path(g, p) && p[0] in s && p[|p| - 1] in s ==> forall k :: 0 <= k < |p| ==> p[k] in s
  }

  lemma PathSlice(g: Graph, p: seq<nat>, lo: nat, hi: nat)
    requires Path(g, p) && lo < hi <= |p|
    ensures Path(g, p[lo..hi])
  {
    var q := p[lo..hi];
    forall k | 0 < k < |q| ensures Edge(g, q[k - 1], q[k]) {
      assert Edge(g, p[lo + k - 1], p[lo + k]);
    }
  }

  lemma PathJoin(g: Graph, p: seq<nat>, q: seq<nat>)
    requires Path(g, p) && Path(g, q) && p[|p| - 1] == q[0]
    ensures Path(g, p + q[1..])
    ensures (p + q[1..])[0] == p[0]
    ensures (p + q[1..])[|p + q[1..]| - 1] == q[|q| - 1]
  {
    var r := p + q[1..];
    forall k | 0 < k < |r| ensures Edge(g, r[k - 1], r[k]) {
      if k < |p| {
        assert Edge(g, p[k - 1], p[k]);
      } else {
        assert Edge(g, q[k - |p|], q[k - |p| + 1]);
      }
    }
  }

  lemma ReachesTransitive(g: Graph, u: nat, v: nat, w: nat)
    requires Reaches(g, u, v) && Reaches(g, v, w)
    ensures Reaches(g, u, w)
  {
    var p :| Path(g, p) && |p| >= 2 && p[0] == u && p[|p| - 1] == v;
    var q :| Path(g, q) && |q| >= 2 && q[0] == v && q[|q| - 1] == w;
    PathJoin(g, p, q);
  }

  lemma EdgeReaches(g: Graph, u: nat, v: nat)
    requires Edge(g, u, v)
    ensures Reaches(g, u, v)
  {
    var p := [u, v];
    assert Path(g, p) && |p| >= 2 && p[0] == u && p[|p| - 1] == v;
  }

  /** A walk starts with one edge; what remains is empty or again a walk. */
  lemma ReachesFirstEdge(g: Graph, u: nat, w: nat) returns (v: nat)
    requires Reaches(g, u, w)
    ensures Edge(g, u, v) && (v == w || Reaches(g, v, w))
  {
    var p :| Path(g, p) && |p| >= 2 && p[0] == u && p[|p| - 1] == w;
    v := p[1];
    if |p| > 2 {
      PathSlice(g, p, 1, |p|);
      var q := p[1..|p|];
      assert Path(g, q) && |q| >= 2 && q[0] == v && q[|q| - 1] == w;
    }
  }

  lemma TransposeSymmetric(succ: Graph, pred: Graph)
    requires IsTranspose(succ, pred)
    ensures IsTranspose(pred, succ)
  {
  }

  function Reversed(s: seq<nat>): (r: seq<nat>)
    ensures |r| == |s| && forall i {:trigger r[i]} :: 0 <= i < |s| ==> r[i] == s[|s| - 1 - i]
  {
    seq(|s|, i requires 0 <= i < |s| => s[|s| - 1 - i])
  }

  /** A path read backwards is a path of the transposed graph. */
  lemma ReversedPath(succ: Graph, pred: Graph, p: seq<nat>)
    requires IsTranspose(succ, pred) && Path(succ, p)
    ensures Path(pred, Reversed(p))
  {
    var r := Reversed(p);
    forall k | 0 < k < |r| ensures Edge(pred, r[k - 1], r[k]) {
      assert Edge(succ, p[|p| - 1 - k], p[|p| - k]);
      TransposeEdge(succ, pred, p[|p| - 1 - k], p[|p| - k]);
    }
  }

  /** An inner node of a path is below its start and above its end. */
  lemma InnerNode(g: Graph, p: seq<nat>, k: nat)
    requires Path(g, p) && 0 < k < |p| - 1
    ensures Reaches(g, p[0], p[k]) && Reaches(g, p[k], p[|p| - 1])
  {
    PathSlice(g, p, 0, k + 1);
    PathSlice(g, p, k, |p|);
    var q, r := p[0..k + 1], p[k..|p|];
    assert Path(g, q) && |q| >= 2 && q[0] == p[0] && q[|q| - 1] == p[k];
    assert Path(g, r) && |r| >= 2 && r[0] == p[k] && r[|r| - 1] == p[|p| - 1];
  }

  /** A node below one member and above another lies on a path between them. */
  lemma PathThrough(g: Graph, a: nat, x: nat, b: nat) returns (p: seq<nat>, k: nat)
    requires Reaches(g, a, x) && Reaches(g, x, b)
    ensures Path(g, p) && p[0] == a && p[|p| - 1] == b && k < |p| && p[k] == x
  {
    var q :| Path(g, q) && |q| >= 2 && q[0] == a && q[|q| - 1] == x;
    var r :| Path(g, r) && |r| >= 2 && r[0] == x && r[|r| - 1] == b;
    PathJoin(g, q, r);
    p, k := q + r[1..], |q| - 1;
  }

  /** Convexity in terms of reachability: nobody outside is both below and above the members. */
  lemma ConvexIffNothingBetween(g: Graph, s: set<nat>)
    ensures Convex(g, s) <==>
            forall a, x, b :: a in s && b in s && Reaches(g, a, x) && Reaches(g, x, b) ==> x in s
  {
    if Convex(g, s) {
      forall a, x, b | a in s && b in s && Reaches(g, a, x) && Reaches(g, x, b) ensures x in s {
        var p, k := PathThrough(g, a, x, b);
      }
    }
    if forall a, x, b :: a in s && b in s && Reaches(g, a, x) && Reaches(g, x, b) ==> x in s {
      forall p, k | Path(g, p) && p[0] in s && p[|p| - 1] in s && 0 <= k < |p| ensures p[k] in s {
        if 0 < k < |p| - 1 { InnerNode(g, p, k); }
      }
    }
  }

  lemma {:induction false} RankGrowsAlongPath(g: Graph, rank: seq<nat>, p: seq<nat>)
    requires IsRank(g, rank) && Path(g, p)
    ensures |p| >= 2 ==> rank[p[0]] < rank[p[|p| - 1]]
    decreases |p|
  {
    if |p| >= 2 {
      assert Edge(g, p[|p| - 2], p[|p| - 1]);
      PathSlice(g, p, 0, |p| - 1);
      RankGrowsAlongPath(g, rank, p[0..|p| - 1]);
    }
  }

  lemma AcyclicHasNoCycle(g: Graph, u: nat)
    requires Acyclic(g)
    ensures !Reaches(g, u, u)
  {
    if Reaches(g, u, u) {
      var rank :| IsRank(g, rank);
      var p :| Path(g, p) && |p| >= 2 && p[0] == u && p[|p| - 1] == u;
      RankGrowsAlongPath(g, rank, p);
    }
  }

  // ---- Groups and their quotient ----------------------------------------------------------------

  /** How often each node is listed over all groups. */
  function Occurrences(groups: seq<seq<nat>>): (count: multiset<nat>) {
    if groups == [] then multiset{}
    else Occurrences(groups[..|groups| - 1]) + multiset(groups[|groups| - 1])
  }

  /** Each node of `nodes` is listed exactly once, and no other node is. */
  ghost predicate ExactCover(groups: seq<seq<nat>>, nodes: set<nat>) {
    Occurrences(groups) == multiset(nodes)
  }

  ghost predicate Together(groups: seq<seq<nat>>, u: nat, v: nat) {
    u == v || exists c :: c in groups && u in c && v in c
  }

  /** `rank` schedules the graph in which every group is one node and ungrouped nodes stay single. */
  ghost predicate QuotientRank(g: Graph, groups: seq<seq<nat>>, rank: seq<nat>) {
    && |rank| == |g|
    && (forall c, u :: c in groups && u in c ==> u < |g|)
    && (forall c, u, v :: c in groups && u in c && v in c ==> rank[u] == rank[v])
    && forall u: nat, v: nat :: Edge(g, u, v) ==> Together(groups, u, v) || rank[u] < rank[v]
  }

  ghost predicate AcyclicQuotient(g: Graph, groups: seq<seq<nat>>) {
    exists rank :: QuotientRank(g, groups, rank)
  }

  lemma {:induction false} QuotientRankAlongPath(g: Graph, groups: seq<seq<nat>>, rank: seq<nat>, p: seq<nat>)
    requires QuotientRank(g, groups, rank) && Path(g, p)
    ensures forall k :: 0 <= k < |p| ==> rank[p[0]] <= rank[p[k]]
    decreases |p|
  {
    if |p| >= 2 {
      var q := p[0..|p| - 1];
      PathSlice(g, p, 0, |p| - 1);
      QuotientRankAlongPath(g, groups, rank, q);
      assert Edge(g, p[|p| - 2], p[|p| - 1]);
      assert q[|p| - 2] == p[|p| - 2];
      forall k | 0 <= k < |p| ensures rank[p[0]] <= rank[p[k]] {
        if k < |p| - 1 { assert q[k] == p[k]; }
      }
    }
  }

  /**
   Contracting groups to a schedulable graph makes every group convex: nothing outside a group can
   sit between two of its members.
   */
  lemma AcyclicQuotientMakesGroupsConvex(g: Graph, groups: seq<seq<nat>>, c: seq<nat>)
    requires AcyclicQuotient(g, groups) && c in groups
    requires forall a, b, v :: a in groups && b in groups && v in a && v in b ==> a == b
    ensures Convex(g, set v | v in c)
  {
    var rank :| QuotientRank(g, groups, rank);
    var s := set v | v in c;
    forall p, k | Path(g, p) && p[0] in s && p[|p| - 1] in s && 0 <= k < |p| ensures p[k] in s {
      LeavingAGroupIsForever(g, groups, rank, c, p, k);
    }
  }

  lemma RankCannotFall(g: Graph, groups: seq<seq<nat>>, rank: seq<nat>, p: seq<nat>, k: nat)
    requires QuotientRank(g, groups, rank) && Path(g, p) && k < |p|
    ensures rank[p[k]] <= rank[p[|p| - 1]]
  {
    PathSlice(g, p, k, |p|);
    var tail := p[k..|p|];
    QuotientRankAlongPath(g, groups, rank, tail);
    assert tail[|tail| - 1] == p[|p| - 1];
  }

  lemma {:induction false} LeavingAGroupIsForever(
    g: Graph, groups: seq<seq<nat>>, rank: seq<nat>, c: seq<nat>, p: seq<nat>, k: nat)
    requires QuotientRank(g, groups, rank) && c in groups && Path(g, p) && k < |p|
    requires forall a, b, v :: a in groups && b in groups && v in a && v in b ==> a == b
    requires p[0] in c && p[|p| - 1] in c
    ensures p[k] in c
    decreases k
  {
    if k > 0 {
      LeavingAGroupIsForever(g, groups, rank, c, p, k - 1);
      assert Edge(g, p[k - 1], p[k]);
      if p[k] !in c {
        assert !Together(groups, p[k - 1], p[k]);
        RankCannotFall(g, groups, rank, p, k);
      }
    }
  }

  /** Listing the groups in another order changes neither the cover nor the quotient. */
  lemma SameGroupsSameQuotient(g: Graph, a: seq<seq<nat>>, b: seq<seq<nat>>)
    requires forall c :: c in a <==> c in b
    requires AcyclicQuotient(g, a)
    ensures AcyclicQuotient(g, b)
  {
    var rank :| QuotientRank(g, a, rank);
    forall u: nat, v: nat | Edge(g, u, v) ensures Together(b, u, v) || rank[u] < rank[v] {
      if Together(a, u, v) && u != v {
        var c :| c in a && u in c && v in c;
        assert c in b;
      }
    }
    assert QuotientRank(g, b, rank);
  }

  lemma {:induction false} OccurrencesAppend(a: seq<seq<nat>>, b: seq<seq<nat>>)
    ensures Occurrences(a + b) == Occurrences(a) + Occurrences(b)
  {
    if b == [] {
      assert a + b == a;
    } else {
      var front := b[..|b| - 1];
      assert (a + b)[..|a + b| - 1] == a + front;
      OccurrencesAppend(a, front);
    }
  }

  lemma {:induction false} OccurrenceHasGroup(groups: seq<seq<nat>>, v: nat)
    ensures v in Occurrences(groups) <==> exists c :: c in groups && v in c
  {
    if groups != [] {
      var front, last := groups[..|groups| - 1], groups[|groups| - 1];
      assert groups == front + [last];
      OccurrenceHasGroup(front, v);
      if v in Occurrences(front) {
        var c :| c in front && v in c;
        assert c in groups;
      }
      if v in last {
        assert v in multiset(last) && last in groups;
      }
      if c :| c in groups && v in c {
        if c == last { assert v in multiset(last); } else { assert c in front; }
      }
    }
  }

  /** Groups that list no node twice are disjoint: a shared node means the same position. */
  lemma {:induction false} NodeHasOneGroup(groups: seq<seq<nat>>, i: nat, j: nat, v: nat)
    requires Occurrences(groups)[v] <= 1
    requires i < |groups| && j < |groups| && v in groups[i] && v in groups[j]
    ensures i == j
    decreases |groups|
  {
    var front, last := groups[..|groups| - 1], groups[|groups| - 1];
    if i < |front| && j < |front| {
      NodeHasOneGroup(front, i, j, v);
    } else if i != j {
      var k := if i < j then i else j;
      assert front[k] in front && v in front[k];
      assert v in last ==> v in multiset(last);
      OccurrenceHasGroup(front, v);
    }
  }

  lemma {:induction false} DisjointOccurrences(groups: seq<seq<nat>>, v: nat)
    requires forall c :: c in groups ==> NoDup(c)
    requires forall i, j, x :: 0 <= i < j < |groups| && x in groups[i] ==> x !in groups[j]
    ensures Occurrences(groups)[v] <= 1
  {
    if groups != [] {
      var front, last := groups[..|groups| - 1], groups[|groups| - 1];
      assert groups == front + [last];
      DisjointOccurrences(front, v);
      OccurrenceHasGroup(front, v);
      NoDupCount(last, v);
      assert v in last ==> forall i :: 0 <= i < |front| ==> v !in groups[i];
    }
  }

  lemma {:induction false} NoDupCount(s: seq<nat>, v: nat)
    requires NoDup(s)
    ensures multiset(s)[v] == if v in s then 1 else 0
  {
    if s != [] {
      var front, last := s[..|s| - 1], s[|s| - 1];
      assert s == front + [last];
      NoDupCount(front, v);
      assert v in front ==> v != last;
    }
  }

  /** Pairwise disjoint duplicate-free groups with union `nodes` cover it exactly. */
  lemma DisjointGroupsCover(groups: seq<seq<nat>>, nodes: set<nat>)
    requires forall c :: c in groups ==> NoDup(c)
    requires forall i, j, x :: 0 <= i < j < |groups| && x in groups[i] ==> x !in groups[j]
    requires forall v :: v in nodes <==> exists c :: c in groups && v in c
    ensures ExactCover(groups, nodes)
  {
    forall v ensures Occurrences(groups)[v] == multiset(nodes)[v] {
      DisjointOccurrences(groups, v);
      OccurrenceHasGroup(groups, v);
    }
  }
}
