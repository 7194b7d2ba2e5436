/** Atomic operator regions: accepted when convex, then partitioned as single nodes. */
module Regions {
  import opened Graphs
  import opened Kahn
  import opened Colours
  import opened ColourRuns
  import opened ConvexMerge
  import opened ConvexClusters
  import opened Quotients
  import opened Sorting
  import opened ClusterEdges

  // ---- Accepting regions ------------------------------------------------------------------------

  /** The conditions under which a region stays in one piece. */
  ghost predicate Admissible(c: Colouring, succ: Graph, accepted: seq<seq<nat>>, region: seq<nat>) {
    && Below(region, |succ|)
    && region != []
    && c.OneColour(SortDedup(region))
    && (forall v :: v in region ==> v !in Occurrences(accepted))
    && Convex(succ, Elements(region))
  }

  /** Regions are taken in the order given; a region that is not admissible is dropped. */
  ghost function Accepted(c: Colouring, succ: Graph, regions: seq<seq<nat>>): (kept: seq<seq<nat>>) {
    if regions == [] then []
    else
      var before := Accepted(c, succ, regions[..|regions| - 1]);
      var region := regions[|regions| - 1];
      if Admissible(c, succ, before, region) then before + [SortDedup(region)] else before
  }

  // ---- Which regions are accepted ---------------------------------------------------------------

  /** Known supported nodes of one colour, with nothing else between any two of them. */
  ghost predicate WellPlaced(c: Colouring, succ: Graph, region: seq<nat>) {
    && c.Valid(|succ|) && region != [] && c.OneColour(region)
    && Convex(succ, Elements(region))
  }

  ghost predicate Apart(region: seq<nat>, taken: seq<seq<nat>>) {
    forall r, v :: r in taken && v in region ==> v !in r
  }

  ghost predicate Contains(regions: seq<seq<nat>>, nodes: set<nat>) {
    exists r :: r in regions && Elements(r) == nodes
  }

  lemma {:induction false} TakenNodes(groups: seq<seq<nat>>, v: nat)
    ensures v in Occurrences(groups) <==> exists r :: r in groups && v in r
  {
    if groups != [] {
      var front, last := groups[..|groups| - 1], groups[|groups| - 1];
      TakenNodes(front, v);
      assert forall r {:trigger r in front} :: r in front ==> r in groups;
      assert last in groups;
      if r :| r in groups && v in r { assert r in front || r == last; }
    }
  }

  lemma {:induction false} AdmissibleMeans(c: Colouring, succ: Graph, accepted: seq<seq<nat>>, region: seq<nat>)
    requires c.Valid(|succ|)
    ensures Admissible(c, succ, accepted, region) <==> WellPlaced(c, succ, region) && Apart(region, accepted)
  {
    SameColours(c, region, SortDedup(region));
    ApartMeans(region, accepted);
  }

  lemma {:induction false} SameColours(c: Colouring, a: seq<nat>, b: seq<nat>)
    requires |c.supported| == |c.float64| == |c.classes|
    requires forall v :: v in a <==> v in b
    ensures c.OneColour(a) <==> c.OneColour(b)
    ensures c.OneColour(a) ==> Below(a, |c.supported|)
  {
    OneColourTransfers(c, a, b);
    OneColourTransfers(c, b, a);
    assert forall i :: 0 <= i < |a| ==> a[i] in a;
  }

  lemma {:induction false} OneColourTransfers(c: Colouring, a: seq<nat>, b: seq<nat>)
    requires forall v :: v in a <==> v in b
    ensures c.OneColour(a) ==> c.OneColour(b)
  {
    if c.OneColour(a) {
      forall v | v in b ensures b[0] < |c.supported| && v < |c.supported| && c.Compatible(b[0], v) {
        assert b[0] in b;
        assert c.Compatible(a[0], b[0]) && c.Compatible(a[0], v);
      }
    }
  }

  lemma {:induction false} ApartMeans(region: seq<nat>, taken: seq<seq<nat>>)
    ensures Apart(region, taken) <==> forall v :: v in region ==> v !in Occurrences(taken)
  {
    forall v | v in region ensures v in Occurrences(taken) <==> exists r :: r in taken && v in r {
      TakenNodes(taken, v);
    }
  }

  lemma {:induction false} AcceptedGrows(c: Colouring, succ: Graph, regions: seq<seq<nat>>, k: nat, r: seq<nat>)
    requires k <= |regions| && r in Accepted(c, succ, regions[..k])
    ensures r in Accepted(c, succ, regions)
    decreases |regions|
  {
    if k < |regions| {
      var front := regions[..|regions| - 1];
      assert front[..k] == regions[..k];
      AcceptedGrows(c, succ, front, k, r);
    } else {
      assert regions[..k] == regions;
    }
  }

  /** A well placed region that shares no node with those accepted before it is accepted. */
  lemma {:induction false} EveryFittingRegionIsAccepted(c: Colouring, succ: Graph, regions: seq<seq<nat>>, k: nat)
    requires c.Valid(|succ|) && k < |regions|
    requires WellPlaced(c, succ, regions[k]) && Apart(regions[k], Accepted(c, succ, regions[..k]))
    ensures Contains(Accepted(c, succ, regions), Elements(regions[k]))
  {
    AdmissibleMeans(c, succ, Accepted(c, succ, regions[..k]), regions[k]);
    AcceptedNext(c, succ, regions, k);
    AcceptedGrows(c, succ, regions, k + 1, SortDedup(regions[k]));
    SameElements(regions[k]);
  }

  lemma {:induction false} AcceptedNext(c: Colouring, succ: Graph, regions: seq<seq<nat>>, k: nat)
    requires k < |regions| && Admissible(c, succ, Accepted(c, succ, regions[..k]), regions[k])
    ensures SortDedup(regions[k]) in Accepted(c, succ, regions[..k + 1])
  {
    assert regions[..k + 1][..k] == regions[..k];
    var before, nodes := Accepted(c, succ, regions[..k]), SortDedup(regions[k]);
    assert (before + [nodes])[|before|] == nodes;
  }

  lemma {:induction false} SameElements(region: seq<nat>)
    ensures Elements(SortDedup(region)) == Elements(region)
  {
  }

  /** Nothing else is: each accepted region is one of those, and holds exactly its nodes. */
  lemma {:induction false} OnlyFittingRegionsAreAccepted(c: Colouring, succ: Graph, regions: seq<seq<nat>>, r: seq<nat>)
    returns (k: nat)
    requires c.Valid(|succ|) && r in Accepted(c, succ, regions)
    ensures k < |regions| && WellPlaced(c, succ, regions[k]) && Apart(regions[k], Accepted(c, succ, regions[..k]))
    ensures Elements(r) == Elements(regions[k])
    decreases |regions|
  {
    var n := |regions| - 1;
    var front := regions[..n];
    if r in Accepted(c, succ, front) {
      k := OnlyFittingRegionsAreAccepted(c, succ, front, r);
      assert front[..k] == regions[..k];
    } else {
      k := n;
      AdmissibleMeans(c, succ, Accepted(c, succ, front), regions[n]);
      assert r == SortDedup(regions[n]);
    }
  }

  ghost predicate PairwiseApart(regions: seq<seq<nat>>) {
    forall i, j, v :: 0 <= i < j < |regions| && v in regions[i] ==> v !in regions[j]
  }

  /** Well placed regions that share no node are all accepted. */
  lemma {:induction false} DisjointRegionsAreAccepted(c: Colouring, succ: Graph, regions: seq<seq<nat>>)
    requires c.Valid(|succ|) && PairwiseApart(regions)
    requires forall i :: 0 <= i < |regions| ==> WellPlaced(c, succ, regions[i])
    ensures forall i :: 0 <= i < |regions| ==> Contains(Accepted(c, succ, regions), Elements(regions[i]))
    ensures forall r :: r in Accepted(c, succ, regions) ==> Contains(regions, Elements(r))
  {
    forall k | 0 <= k < |regions| ensures Contains(Accepted(c, succ, regions), Elements(regions[k])) {
      forall r, v | r in Accepted(c, succ, regions[..k]) && v in regions[k] ensures v !in r {
        var j := OnlyFittingRegionsAreAccepted(c, succ, regions[..k], r);
        assert v in Elements(r) <==> v in Elements(regions[j]);
      }
      EveryFittingRegionIsAccepted(c, succ, regions, k);
    }
    forall r | r in Accepted(c, succ, regions) ensures Contains(regions, Elements(r)) {
      var k := OnlyFittingRegionsAreAccepted(c, succ, regions, r);
      assert regions[k] in regions;
    }
  }

  /** Contracting the same node sets gives the same schedules. */
  lemma {:induction false} SameSetsSameQuotient(g: Graph, a: seq<seq<nat>>, b: seq<seq<nat>>)
    requires AcyclicQuotient(g, a)
    requires forall r :: r in a ==> Contains(b, Elements(r))
    requires forall r :: r in b ==> Contains(a, Elements(r))
    ensures AcyclicQuotient(g, b)
  {
    var rank :| QuotientRank(g, a, rank);
    forall r, u, v | r in b && u in r && v in r ensures u < |g| && v < |g| && rank[u] == rank[v] {
      var q :| q in a && Elements(q) == Elements(r);
      assert u in Elements(r) && v in Elements(r) && u in q && v in q;
    }
    forall u: nat, v: nat | Edge(g, u, v) ensures Together(b, u, v) || rank[u] < rank[v] {
      if Together(a, u, v) && u != v {
        var q :| q in a && u in q && v in q;
        var r :| r in b && Elements(r) == Elements(q);
        assert u in Elements(q) && v in Elements(q) && u in r && v in r;
      }
    }
    assert QuotientRank(g, b, rank);
  }

  /** Well placed regions that share no node and can be scheduled as single nodes. */
  ghost predicate SetApart(c: Colouring, succ: Graph, regions: seq<seq<nat>>) {
    && PairwiseApart(regions) && AcyclicQuotient(succ, regions)
    && forall i {:trigger regions[i]} :: 0 <= i < |regions| ==> WellPlaced(c, succ, regions[i])
  }

  lemma {:induction false} DisjointRegionsStayWhole(c: Colouring, succ: Graph, regions: seq<seq<nat>>)
    requires c.Valid(|succ|) && SetApart(c, succ, regions)
    ensures AcyclicQuotient(succ, Accepted(c, succ, regions))
    ensures forall groups {:trigger Coarsens(groups, regions)} ::
              Coarsens(groups, Accepted(c, succ, regions)) ==> Coarsens(groups, regions)
  {
    var accepted := Accepted(c, succ, regions);
    DisjointRegionsAreAccepted(c, succ, regions);
    forall r | r in regions ensures Contains(accepted, Elements(r)) {
      var i :| 0 <= i < |regions| && regions[i] == r;
    }
    SameSetsSameQuotient(succ, regions, accepted);
    forall groups | Coarsens(groups, accepted) ensures Coarsens(groups, regions) {
      SameSetsSameGroups(groups, accepted, regions);
    }
  }

  lemma {:induction false} SameSetsSameGroups(groups: seq<seq<nat>>, a: seq<seq<nat>>, b: seq<seq<nat>>)
    requires Coarsens(groups, a)
    requires forall r :: r in b ==> Contains(a, Elements(r))
    ensures Coarsens(groups, b)
  {
    forall r | r in b ensures WithinOne(groups, r) {
      var q :| q in a && Elements(q) == Elements(r);
      assert WithinOne(groups, q);
    }
  }

  // ---- The pruned search for a path that leaves and returns -------------------------------------

  /** A path from a member to `x` whose first step leaves the members. */
  ghost predicate Escapes(g: Graph, s: set<nat>, x: nat) {
    exists p :: Path(g, p) && |p| >= 2 && p[0] in s && p[1] !in s && p[|p| - 1] == x
  }

  lemma EscapeStep(g: Graph, s: set<nat>, x: nat, y: nat)
    requires Escapes(g, s, x) && Edge(g, x, y)
    ensures Escapes(g, s, y)
  {
    var p :| Path(g, p) && |p| >= 2 && p[0] in s && p[1] !in s && p[|p| - 1] == x;
    var q := [x, y];
    assert Path(g, q);
    PathJoin(g, p, q);
    var r := p + q[1..];
    assert Path(g, r) && |r| >= 2 && r[0] in s && r[1] !in s && r[|r| - 1] == y;
  }

  lemma EscapeStart(g: Graph, s: set<nat>, x: nat, y: nat)
    requires x in s && y !in s && Edge(g, x, y)
    ensures Escapes(g, s, y)
  {
    var p := [x, y];
    assert Path(g, p) && |p| >= 2 && p[0] in s && p[1] !in s && p[|p| - 1] == y;
  }

  /** Convexity fails exactly when some path leaves the members and comes back. */
  lemma ConvexIffNoReturn(g: Graph, s: set<nat>)
    ensures Convex(g, s) <==> forall x :: x in s ==> !Escapes(g, s, x)
  {
    if x :| x in s && Escapes(g, s, x) {
      var p :| Path(g, p) && |p| >= 2 && p[0] in s && p[1] !in s && p[|p| - 1] == x;
      assert !Convex(g, s);
    }
    if !Convex(g, s) {
      var p, k :| Path(g, p) && p[0] in s && p[|p| - 1] in s && 0 <= k < |p| && p[k] !in s;
      FirstExit(g, s, p, k);
    }
  }

  lemma {:induction false} FirstExit(g: Graph, s: set<nat>, p: seq<nat>, k: nat)
    requires Path(g, p) && p[0] in s && k < |p| && p[k] !in s
    ensures Escapes(g, s, p[|p| - 1])
    decreases |p|
  {
    if p[1] in s {
      PathSlice(g, p, 1, |p|);
      FirstExit(g, s, p[1..|p|], k - 1);
    }
  }

  /** A node the search may skip: in an ordered graph nothing past the last member comes back. */
  ghost predicate Pruned(ordered: bool, last: nat, x: nat) {
    ordered && x > last
  }

  ghost predicate Handled(ordered: bool, last: nat, visited: seq<bool>, pending: seq<nat>, x: nat) {
    (x < |visited| && visited[x]) || x in pending || Pruned(ordered, last, x)
  }

  ghost predicate SearchState(
    g: Graph, s: set<nat>, ordered: bool, last: nat, visited: seq<bool>, pending: seq<nat>)
  {
    && |visited| == |g|
    && (forall i {:trigger pending[i]} :: 0 <= i < |pending| ==> pending[i] < |g| && Escapes(g, s, pending[i]))
    && (forall v: nat {:trigger visited[v]} :: v < |g| && visited[v] ==> v !in s && Escapes(g, s, v))
    && (forall u: nat, v: nat {:trigger Edge(g, u, v)} :: Edge(g, u, v) && ((u in s && v !in s) || visited[u]) ==>
          Handled(ordered, last, visited, pending, v))
  }

  lemma {:induction false} NothingReturns(
    g: Graph, s: set<nat>, ordered: bool, last: nat, visited: seq<bool>, p: seq<nat>)
    requires SearchState(g, s, ordered, last, visited, []) && (ordered ==> Ordered(g))
    requires forall v :: v in s ==> v <= last
    requires Path(g, p) && |p| >= 2 && p[0] in s && p[1] !in s
    ensures p[|p| - 1] !in s && (visited[p[|p| - 1]] || Pruned(ordered, last, p[|p| - 1]))
    decreases |p|
  {
    assert Edge(g, p[|p| - 2], p[|p| - 1]);
    if |p| > 2 {
      PathSlice(g, p, 0, |p| - 1);
      NothingReturns(g, s, ordered, last, visited, p[0..|p| - 1]);
    }
    assert Handled(ordered, last, visited, [], p[|p| - 1]) || Pruned(ordered, last, p[|p| - 1]);
  }

  lemma FinishedSearch(g: Graph, s: set<nat>, ordered: bool, last: nat, visited: seq<bool>)
    requires SearchState(g, s, ordered, last, visited, []) && (ordered ==> Ordered(g))
    requires forall v :: v in s ==> v <= last
    ensures Convex(g, s)
  {
    ConvexIffNoReturn(g, s);
    forall x | x in s ensures !Escapes(g, s, x) {
      if Escapes(g, s, x) {
        var p :| Path(g, p) && |p| >= 2 && p[0] in s && p[1] !in s && p[|p| - 1] == x;
        NothingReturns(g, s, ordered, last, visited, p);
      }
    }
  }

  ghost function Unvisited(visited: seq<bool>): (n: nat) {
    if visited == [] then 0 else Unvisited(visited[..|visited| - 1]) + if visited[|visited| - 1] then 0 else 1
  }

  lemma {:induction false} VisitOne(visited: seq<bool>, v: nat)
    requires v < |visited| && !visited[v]
    ensures Unvisited(visited[v := true]) == Unvisited(visited) - 1
  {
    var n := |visited|;
    if v < n - 1 {
      VisitOne(visited[..n - 1], v);
      assert visited[v := true][..n - 1] == visited[..n - 1][v := true];
    } else {
      assert visited[v := true][..n - 1] == visited[..n - 1];
    }
  }

  /** The first nodes outside a region that its members lead to. */
  method Exits(g: Graph, nodes: seq<nat>) returns (pending: seq<nat>)
    requires WellFormed(g) && Below(nodes, |g|)
    ensures forall v: nat :: v in pending <==> v !in nodes && exists u: nat :: u in nodes && Edge(g, u, v)
  {
    pending := [];
    for i := 0 to |nodes|
      invariant forall v: nat :: v in pending <==> v !in nodes && exists u: nat :: u in nodes[..i] && Edge(g, u, v)
    {
      var u := nodes[i];
      ghost var before := pending;
      for k := 0 to |g[u]|
        invariant forall v: nat :: v in pending <==> v in before || (v in g[u][..k] && v !in nodes)
      {
        if g[u][k] !in nodes { pending := pending + [g[u][k]]; }
        assert g[u][..k + 1] == g[u][..k] + [g[u][k]];
      }
      assert g[u][..|g[u]|] == g[u];
      assert nodes[..i + 1] == nodes[..i] + [u];
      forall v: nat ensures v in pending <==> v !in nodes && exists w: nat :: w in nodes[..i + 1] && Edge(g, w, v) {
        if v in g[u] { assert Edge(g, u, v); }
        if w: nat :| w in nodes[..i + 1] && Edge(g, w, v) { assert w == u || w in nodes[..i]; }
      }
    }
    assert nodes[..|nodes|] == nodes;
  }

  lemma VisitKeepsState(
    g: Graph, s: set<nat>, ordered: bool, last: nat, visited: seq<bool>, pending: seq<nat>, node: nat)
    requires WellFormed(g) && SearchState(g, s, ordered, last, visited, pending + [node])
    requires node < |g| && node !in s && !visited[node]
    ensures SearchState(g, s, ordered, last, visited[node := true], pending + g[node])
  {
    assert (pending + [node])[|pending|] == node;
    var next := pending + g[node];
    forall i | 0 <= i < |next| ensures next[i] < |g| && Escapes(g, s, next[i]) {
      if i < |pending| {
        assert (pending + [node])[i] == pending[i];
      } else {
        assert next[i] in g[node] && Edge(g, node, next[i]);
        EscapeStep(g, s, node, next[i]);
      }
    }
    forall u: nat, v: nat | Edge(g, u, v) && ((u in s && v !in s) || visited[node := true][u])
      ensures Handled(ordered, last, visited[node := true], next, v)
    {
      if u != node { assert Handled(ordered, last, visited, pending + [node], v); }
    }
  }

  lemma SkipKeepsState(
    g: Graph, s: set<nat>, ordered: bool, last: nat, visited: seq<bool>, pending: seq<nat>, node: nat)
    requires SearchState(g, s, ordered, last, visited, pending + [node])
    requires Pruned(ordered, last, node) || (node < |g| && visited[node])
    ensures SearchState(g, s, ordered, last, visited, pending)
  {
    forall i | 0 <= i < |pending| ensures pending[i] < |g| && Escapes(g, s, pending[i]) {
      assert (pending + [node])[i] == pending[i];
    }
    forall u: nat, v: nat | Edge(g, u, v) && ((u in s && v !in s) || visited[u])
      ensures Handled(ordered, last, visited, pending, v)
    {
      assert Handled(ordered, last, visited, pending + [node], v);
    }
  }

  lemma ReturnedToMember(
    g: Graph, s: set<nat>, ordered: bool, last: nat, visited: seq<bool>, pending: seq<nat>, node: nat)
    requires SearchState(g, s, ordered, last, visited, pending + [node]) && node in s
    ensures !Convex(g, s)
  {
    assert (pending + [node])[|pending|] == node;
    ConvexIffNoReturn(g, s);
  }

  lemma ExitsStartSearch(
    g: Graph, nodes: seq<nat>, ordered: bool, last: nat, visited: seq<bool>, pending: seq<nat>)
    requires forall v: nat :: v in pending <==> v !in nodes && exists u: nat :: u in nodes && Edge(g, u, v)
    requires |visited| == |g| && forall v :: 0 <= v < |g| ==> !visited[v]
    ensures SearchState(g, Elements(nodes), ordered, last, visited, pending)
  {
    var s := Elements(nodes);
    forall i | 0 <= i < |pending| ensures pending[i] < |g| && Escapes(g, s, pending[i]) {
      assert pending[i] in pending;
      var u: nat :| u in nodes && Edge(g, u, pending[i]);
      EscapeStart(g, s, u, pending[i]);
    }
  }

  /** Decide convexity of a region by searching from its exits, skipping what cannot come back. */
  method RegionIsConvex(g: Graph, nodes: seq<nat>, ordered: bool) returns (convex: bool)
    requires WellFormed(g) && Below(nodes, |g|) && nodes != [] && StrictlyAscending(nodes)
    requires ordered ==> Ordered(g)
    ensures convex <==> Convex(g, Elements(nodes))
  {
    ghost var s := Elements(nodes);
    var last := nodes[|nodes| - 1];
    var pending: seq<nat> := Exits(g, nodes);
    var visited := seq(|g|, _ => false);
    ExitsStartSearch(g, nodes, ordered, last, visited, pending);
    convex := true;
    while pending != []
      invariant SearchState(g, s, ordered, last, visited, pending)
      decreases Unvisited(visited), |pending|
    {
      convex, visited, pending := SearchStep(g, nodes, ordered, last, visited, pending);
      if !convex { return; }
    }
    assert forall i :: 0 <= i < |nodes| ==> nodes[i] <= last;
    FinishedSearch(g, s, ordered, last, visited);
  }

  /** Take one node off the search; `false` if it is a member again. */
  method SearchStep(g: Graph, nodes: seq<nat>, ordered: bool, last: nat, visited0: seq<bool>, pending0: seq<nat>)
    returns (away: bool, visited: seq<bool>, pending: seq<nat>)
    requires WellFormed(g) && Below(nodes, |g|) && pending0 != []
    requires SearchState(g, Elements(nodes), ordered, last, visited0, pending0)
    ensures !away ==> !Convex(g, Elements(nodes))
    ensures away ==> SearchState(g, Elements(nodes), ordered, last, visited, pending)
    ensures away ==> Unvisited(visited) < Unvisited(visited0) ||
                     (visited == visited0 && |pending| < |pending0|)
  {
    ghost var s := Elements(nodes);
    var node := pending0[|pending0| - 1];
    away, visited, pending := true, visited0, pending0[..|pending0| - 1];
    assert pending0 == pending + [node];
    if ordered && node > last {
      SkipKeepsState(g, s, ordered, last, visited, pending, node);
    } else if node in nodes {
      ReturnedToMember(g, s, ordered, last, visited, pending, node);
      away := false;
    } else if visited[node] {
      SkipKeepsState(g, s, ordered, last, visited, pending, node);
    } else {
      VisitKeepsState(g, s, ordered, last, visited, pending, node);
      VisitOne(visited, node);
      visited := visited[node := true];
      pending := pending + g[node];
    }
  }

  method IsOrdered(g: Graph) returns (ordered: bool)
    requires WellFormed(g)
    ensures ordered <==> Ordered(g)
  {
    for u := 0 to |g|
      invariant forall a: nat, b: nat :: a < u && Edge(g, a, b) ==> a < b
    {
      for k := 0 to |g[u]|
        invariant forall j :: 0 <= j < k ==> u < g[u][j]
      {
        if u >= g[u][k] {
          assert Edge(g, u, g[u][k]) by { assert g[u][k] in g[u]; }
          return false;
        }
      }
    }
    ordered := true;
  }

  /** Decide whether one region is admissible next to the nodes already covered. */
  method TestRegion(c: Colouring, g: Graph, covered: seq<bool>, region: seq<nat>, ordered: bool,
                    ghost accepted: seq<seq<nat>>)
    returns (admissible: bool, nodes: seq<nat>)
    requires WellFormed(g) && c.Valid(|g|) && |covered| == |g|
    requires forall v: nat :: v < |g| ==> (covered[v] <==> v in Occurrences(accepted))
    requires ordered ==> Ordered(g)
    ensures admissible <==> Admissible(c, g, accepted, region)
    ensures admissible ==> nodes == SortDedup(region)
  {
    admissible, nodes := false, [];
    if exists i :: 0 <= i < |region| && region[i] >= |g| { return; }
    nodes := SortDedup(region);
    DedupedNodes(|g|, region);
    if nodes == [] { return; }
    SuitsMeaning(c, covered, nodes, region, accepted);
    if !Suits(c, covered, nodes) { return; }
    admissible := RegionIsConvex(g, nodes, ordered);
  }

  lemma DedupedNodes(n: nat, region: seq<nat>)
    requires Below(region, n)
    ensures Below(SortDedup(region), n) && Elements(SortDedup(region)) == Elements(region)
    ensures SortDedup(region) != [] <==> region != []
  {
    var nodes := SortDedup(region);
    assert region != [] ==> region[0] in nodes;
    assert forall i :: 0 <= i < |nodes| ==> nodes[i] in region;
  }

  /** No node is taken, and all are supported with the colour of the first. */
  predicate Suits(c: Colouring, covered: seq<bool>, nodes: seq<nat>)
    requires c.Valid(|covered|) && nodes != [] && Below(nodes, |covered|)
  {
    forall i :: 0 <= i < |nodes| ==>
      && !covered[nodes[i]]
      && c.supported[nodes[i]]
      && c.float64[nodes[i]] == c.float64[nodes[0]]
      && c.classes[nodes[i]] == c.classes[nodes[0]]
  }

  lemma SuitsMeaning(c: Colouring, covered: seq<bool>, nodes: seq<nat>, region: seq<nat>, accepted: seq<seq<nat>>)
    requires c.Valid(|covered|) && nodes != [] && Below(nodes, |covered|)
    requires forall v :: v in nodes <==> v in region
    requires forall v: nat :: v < |covered| ==> (covered[v] <==> v in Occurrences(accepted))
    ensures Suits(c, covered, nodes) <==> c.OneColour(nodes) && forall v :: v in region ==> v !in Occurrences(accepted)
  {
    if Suits(c, covered, nodes) {
      assert nodes[0] in nodes;
      forall v | v in nodes ensures v < |covered| && c.Compatible(nodes[0], v) && v !in Occurrences(accepted) {
        var i :| 0 <= i < |nodes| && nodes[i] == v;
      }
    } else {
      var i :| 0 <= i < |nodes| && (covered[nodes[i]] || !c.supported[nodes[i]]
        || c.float64[nodes[i]] != c.float64[nodes[0]] || c.classes[nodes[i]] != c.classes[nodes[0]]);
      assert nodes[i] in nodes && nodes[i] in region;
    }
  }

  /** Take the admissible regions; `covered` marks their nodes. */
  method AcceptRegions(c: Colouring, g: Graph, regions: seq<seq<nat>>)
    returns (units: seq<seq<nat>>, covered: seq<bool>)
    requires WellFormed(g) && c.Valid(|g|)
    ensures units == Accepted(c, g, regions)
    ensures |covered| == |g| && forall v: nat :: v < |g| ==> (covered[v] <==> v in Occurrences(units))
  {
    var ordered := IsOrdered(g);
    units := [];
    covered := seq(|g|, _ => false);
    assert regions[..0] == [];
    for r := 0 to |regions|
      invariant units == Accepted(c, g, regions[..r])
      invariant |covered| == |g| && forall v: nat :: v < |g| ==> (covered[v] <==> v in Occurrences(units))
    {
      assert regions[..r + 1][..r] == regions[..r];
      var admissible, nodes := TestRegion(c, g, covered, regions[r], ordered, units);
      if admissible {
        OccurrencesSnoc(units, nodes);
        assert Below(nodes, |g|) by { assert forall i :: 0 <= i < |nodes| ==> nodes[i] in regions[r]; }
        units := units + [nodes];
        covered := MarkNodes(covered, nodes);
      }
    }
    assert regions[..|regions|] == regions;
  }

  lemma OccurrencesSnoc(groups: seq<seq<nat>>, g: seq<nat>)
    ensures Occurrences(groups + [g]) == Occurrences(groups) + multiset(g)
    ensures forall v :: v in Occurrences(groups + [g]) <==> v in Occurrences(groups) || v in g
  {
    assert (groups + [g])[..|groups|] == groups;
  }

  method MarkNodes(marks0: seq<bool>, nodes: seq<nat>) returns (marks: seq<bool>)
    requires Below(nodes, |marks0|)
    ensures |marks| == |marks0| && forall v: nat :: v < |marks| ==> (marks[v] <==> marks0[v] || v in nodes)
  {
    marks := marks0;
    for i := 0 to |nodes|
      invariant |marks| == |marks0|
      invariant forall v: nat :: v < |marks| ==> (marks[v] <==> marks0[v] || v in nodes[..i])
    {
      marks := marks[nodes[i] := true];
      assert nodes[..i + 1] == nodes[..i] + [nodes[i]];
    }
    assert nodes[..|nodes|] == nodes;
  }

  // ---- Scheduling the units ---------------------------------------------------------------------

  ghost predicate SmallestKeyFirst(pred: Graph, keys: seq<nat>, order: seq<nat>) {
    && |keys| == |pred|
    && Below(order, |pred|)
    && forall i :: 0 <= i < |order| ==>
         && order[i] in Ready(pred, order[..i])
         && forall v :: v in Ready(pred, order[..i]) ==> keys[order[i]] <= keys[v]
  }

  method LeastKey(ready: set<nat>, keys: seq<nat>) returns (least: nat)
    requires ready != {} && forall v :: v in ready ==> v < |keys|
    ensures least in ready && forall v :: v in ready ==> keys[least] <= keys[v]
  {
    least :| least in ready;
    var rest := ready;
    while rest != {}
      invariant least in ready && rest <= ready
      invariant forall v :: v in ready ==> v in rest || keys[least] <= keys[v]
      decreases rest
    {
      var v :| v in rest;
      rest := rest - {v};
      if keys[v] < keys[least] { least := v; }
    }
  }

  method ReadyAtStart(pred: Graph, indeg: array<nat>) returns (ready: set<nat>)
    requires ExactDegrees(pred, [], indeg[..])
    ensures ready == Ready(pred, [])
  {
    ready := {};
    for v := 0 to |pred|
      invariant forall w :: w in ready <==> 0 <= w < v && indeg[w] == 0
    {
      if indeg[v] == 0 { ready := ready + {v}; }
    }
    assert Elements([]) == {};
    forall v: nat | v < |pred| ensures indeg[v] == 0 <==> v in Ready(pred, []) { PendingZero(pred[v], {}); }
  }

  method AddAll(s: set<nat>, list: seq<nat>) returns (r: set<nat>)
    ensures r == s + Elements(list)
  {
    r := s;
    for i := 0 to |list|
      invariant r == s + Elements(list[..i])
    {
      r := r + {list[i]};
      assert Elements(list[..i + 1]) == Elements(list[..i]) + {list[i]};
    }
    assert list[..|list|] == list;
  }

  /** Kahn's algorithm with a priority queue: always the ready unit with the smallest key. */
  method PriorityOrder(succ: Graph, pred: Graph, keys: seq<nat>) returns (order: seq<nat>)
    requires IsTranspose(succ, pred) && |keys| == |succ|
    ensures TopologicalPrefix(pred, order) && SmallestKeyFirst(pred, keys, order)
    ensures |order| == |succ| <==> Acyclic(succ)
    ensures |order| == |succ| ==> TopologicalOrder(pred, order)
  {
    var indeg := Degrees(pred);
    var ready := ReadyAtStart(pred, indeg);
    order := [];
    while ready != {}
      invariant TopologicalPrefix(pred, order) && SmallestKeyFirst(pred, keys, order)
      invariant ExactDegrees(pred, order, indeg[..])
      invariant ready == Ready(pred, order)
      decreases |pred| - |order|
    {
      var node := LeastKey(ready, keys);
      var freed := Release(succ, pred, order, node, indeg);
      EmitReady(pred, order, node);
      AppendSmallest(pred, keys, order, node);
      order := order + [node];
      FullPrefixIsOrder(pred, order);
      ready := AddAll(ready - {node}, freed);
    }
    StuckMeansDoneOrCyclic(succ, pred, order);
    FullPrefixIsOrder(pred, order);
  }

  lemma AppendSmallest(pred: Graph, keys: seq<nat>, order: seq<nat>, node: nat)
    requires SmallestKeyFirst(pred, keys, order) && node in Ready(pred, order)
    requires forall v :: v in Ready(pred, order) ==> keys[node] <= keys[v]
    ensures SmallestKeyFirst(pred, keys, order + [node])
  {
    var next := order + [node];
    forall i | 0 <= i < |next|
      ensures next[i] in Ready(pred, next[..i])
      ensures forall v :: v in Ready(pred, next[..i]) ==> keys[next[i]] <= keys[v]
    {
      if i < |order| { assert next[..i] == order[..i]; } else { assert next[..i] == order; }
    }
  }

  // ---- Renumbering the units by their schedule --------------------------------------------------

  /** `remap` and `order` are inverse numberings of the same nodes. */
  ghost predicate Renumbers(order: seq<nat>, remap: seq<nat>) {
    && |remap| == |order|
    && (forall i {:trigger order[i]} :: 0 <= i < |order| ==> order[i] < |remap| && remap[order[i]] == i)
    && forall u {:trigger remap[u]} :: 0 <= u < |remap| ==> remap[u] < |order| && order[remap[u]] == u
  }

  method PositionsOf(order: seq<nat>, n: nat, ghost pred: Graph) returns (remap: seq<nat>)
    requires |pred| == n && TopologicalOrder(pred, order) && |order| == n
    ensures Renumbers(order, remap)
  {
    remap := seq(n, _ => 0);
    for i := 0 to |order|
      invariant |remap| == n && forall j :: 0 <= j < i ==> remap[order[j]] == j
    {
      remap := remap[order[i] := i];
    }
    forall u | 0 <= u < n ensures remap[u] < n && order[remap[u]] == u {
      assert u in Elements(order);
      assert u in order;
    }
  }

  /** The items at the listed places. */
  function Picked<T>(items: seq<T>, places: seq<nat>): (r: seq<T>)
    requires Below(places, |items|)
    ensures |r| == |places| && forall i :: 0 <= i < |places| ==> r[i] == items[places[i]]
  {
    seq(|places|, i requires 0 <= i < |places| => items[places[i]])
  }

  ghost predicate Renumbered(q: Graph, remap: seq<nat>, next: Graph) {
    && |remap| == |q| == |next|
    && (forall a :: 0 <= a < |remap| ==> remap[a] < |next|)
    && forall a: nat, b: nat {:trigger remap[a], remap[b]} :: a < |q| && b < |q| ==>
         (Edge(next, remap[a], remap[b]) <==> Edge(q, a, b))
  }

  /** The same graph with nodes named by their place in the schedule. */
  method Renumber(q: Graph, qpred: Graph, order: seq<nat>, remap: seq<nat>) returns (next: Graph, previous: Graph)
    requires IsTranspose(q, qpred) && TopologicalOrder(qpred, order) && |order| == |q| && Renumbers(order, remap)
    ensures IsTranspose(next, previous) && Renumbered(q, remap, next) && Ordered(next)
  {
    next := [];
    forall u | 0 <= u < |q| ensures Below(q[u], |remap|) {
      assert forall i :: 0 <= i < |q[u]| ==> q[u][i] in q[u];
    }
    for i := 0 to |q|
      invariant |next| == i
      invariant forall j, b :: 0 <= j < i ==> (b in next[j] <==> exists v :: v in q[order[j]] && remap[v] == b)
    {
      var list := Picked(remap, q[order[i]]);
      forall b ensures b in list <==> exists v :: v in q[order[i]] && remap[v] == b {
        if v :| v in q[order[i]] && remap[v] == b {
          var k :| 0 <= k < |q[order[i]]| && q[order[i]][k] == v;
          assert list[k] == b;
        }
      }
      next := next + [SortNodes(list)];
    }
    forall a: nat, b: nat | a < |q| && b < |q| ensures Edge(next, remap[a], remap[b]) <==> Edge(q, a, b) {
      assert order[remap[a]] == a;
      if remap[b] in next[remap[a]] {
        var v :| v in q[a] && remap[v] == remap[b];
        assert order[remap[v]] == v && order[remap[b]] == b;
      }
    }
    forall u, v | 0 <= u < |next| && v in next[u] ensures v < |next| {
      var w :| w in q[order[u]] && remap[w] == v;
    }
    previous := Transpose(next);
    RenumberedOrdered(q, qpred, order, remap, next);
  }

  lemma RenumberedOrdered(q: Graph, qpred: Graph, order: seq<nat>, remap: seq<nat>, next: Graph)
    requires IsTranspose(q, qpred) && TopologicalOrder(qpred, order) && Renumbers(order, remap)
    requires Renumbered(q, remap, next)
    ensures Ordered(next)
  {
    forall a: nat, b: nat | Edge(next, a, b) ensures a < b {
      var u, v := order[a], order[b];
      assert remap[u] == a && remap[v] == b;
      TransposeEdge(q, qpred, u, v);
      var k :| 0 <= k < b && order[..b][k] == u;
      assert remap[order[k]] == k;
    }
  }

  lemma RenumberedQuotient(
    g: Graph, owner: seq<nat>, q: Graph, order: seq<nat>, remap: seq<nat>, next: Graph, owner': seq<nat>)
    requires IsQuotient(g, owner, q) && Renumbered(q, remap, next) && Renumbers(order, remap)
    requires |owner'| == |owner| && forall v :: 0 <= v < |owner| ==> owner'[v] == remap[owner[v]]
    ensures IsQuotient(g, owner', next)
  {
    forall u: nat, v: nat | Edge(g, u, v) && owner'[u] != owner'[v] ensures Edge(next, owner'[u], owner'[v]) {
      assert Edge(q, owner[u], owner[v]);
    }
    forall a: nat, b: nat | Edge(next, a, b) ensures a != b && CrossingEdge(g, owner', a, b) {
      var u, v := order[a], order[b];
      assert remap[u] == a && remap[v] == b;
      assert Edge(q, u, v);
      var x: nat, y: nat :| Edge(g, x, y) && owner[x] == u && owner[y] == v;
      assert owner'[x] == a && owner'[y] == b;
    }
  }

  /** The units in schedule order, with the owner map that goes with them. */
  lemma PermutedOwns(units: seq<seq<nat>>, owner: seq<nat>, order: seq<nat>, remap: seq<nat>)
    requires Owns(units, owner) && Renumbers(order, remap) && |order| == |units| && Below(owner, |remap|)
    requires Below(order, |units|)
    ensures Owns(Picked(units, order), Picked(remap, owner))
  {
    var moved, owner' := Picked(units, order), Picked(remap, owner);
    forall v | 0 <= v < |owner'| ensures owner'[v] < |moved| && v in moved[owner'[v]] {
      assert order[remap[owner[v]]] == owner[v];
    }
    forall i, v | 0 <= i < |moved| && v in moved[i] ensures v < |owner'| && owner'[v] == i {
      assert v in units[order[i]];
    }
  }

  // ---- Partitioning around the regions ----------------------------------------------------------

  lemma {:induction false} AcceptedFacts(c: Colouring, succ: Graph, regions: seq<seq<nat>>)
    requires c.Valid(|succ|)
    ensures forall r :: r in Accepted(c, succ, regions) ==>
              r != [] && StrictlyAscending(r) && c.OneColour(r) && Below(r, |succ|) && Convex(succ, Elements(r))
    ensures forall v :: v in Occurrences(Accepted(c, succ, regions)) ==> v < |succ|
    ensures forall v :: Occurrences(Accepted(c, succ, regions))[v] <= 1
  {
    if regions != [] {
      var front, region := regions[..|regions| - 1], regions[|regions| - 1];
      AcceptedFacts(c, succ, front);
      if Admissible(c, succ, Accepted(c, succ, front), region) {
        DedupedNodes(|succ|, region);
        OneMoreRegion(Accepted(c, succ, front), SortDedup(region), |succ|);
      }
    }
  }

  lemma {:induction false} OneMoreRegion(before: seq<seq<nat>>, nodes: seq<nat>, n: nat)
    requires StrictlyAscending(nodes) && Below(nodes, n)
    requires forall v :: v in nodes ==> v !in Occurrences(before)
    requires forall v :: v in Occurrences(before) ==> v < n
    requires forall v :: Occurrences(before)[v] <= 1
    ensures forall v :: v in Occurrences(before + [nodes]) ==> v < n
    ensures forall v :: Occurrences(before + [nodes])[v] <= 1
  {
    OccurrencesSnoc(before, nodes);
    forall v ensures multiset(nodes)[v] <= 1 && (v in multiset(nodes) ==> v !in Occurrences(before)) {
      NoDupCount(nodes, v);
    }
  }

  lemma CoverOfOccurrences(groups: seq<seq<nat>>, nodes: set<nat>)
    requires forall v :: Occurrences(groups)[v] <= 1
    requires forall v :: v in nodes <==> v in Occurrences(groups)
    ensures ExactCover(groups, nodes)
  {
  }

  /** Sorted units of one colour each; single nodes may be unsupported. */
  ghost predicate ColouredUnits(c: Colouring, n: nat, units: seq<seq<nat>>) {
    forall i {:trigger units[i]} :: 0 <= i < |units| ==>
      && units[i] != [] && units[i][0] < n
      && StrictlyAscending(units[i])
      && (|units[i]| == 1 || c.OneColour(units[i]))
  }

  lemma UnitsAreColoured(c: Colouring, succ: Graph, units: seq<seq<nat>>)
    requires c.Valid(|succ|)
    requires ColouredUnits(c, |succ|, units)
    ensures Headed(c, units) && ColoursUnits(c, units, HeadColouring(c, units))
    ensures forall i :: 0 <= i < |units| && !HeadColouring(c, units).supported[i] ==> |units[i]| == 1
  {
    HeadColouringColours(c, |succ|, units);
    forall i | 0 <= i < |units| && !HeadColouring(c, units).supported[i] ensures |units[i]| == 1 {
      assert units[i][0] in units[i];
    }
  }

  /** Partition the unit graph and expand the groups back to nodes. */
  method PartitionUnits(
    c: Colouring, succ: Graph, units: seq<seq<nat>>, owner: seq<nat>, next: Graph, previous: Graph,
    ghost accepted: seq<seq<nat>>)
    returns (groups: seq<seq<nat>>, ghost unitGroups: seq<seq<nat>>, ghost clusters: seq<seq<nat>>, ghost how: Coalescing)
    requires c.Valid(|succ|) && |owner| == |succ| && Owns(units, owner)
    requires IsQuotient(succ, owner, next) && |next| == |units| && IsTranspose(next, previous) && Ordered(next)
    requires ColouredUnits(c, |succ|, units)
    requires forall r :: r in accepted ==> c.OneColour(r) && r in units
    ensures ValidPartition(succ, c, groups) && Coarsens(groups, accepted) && AllAscending(groups)
    ensures Headed(c, units) && EdgePartition(HeadColouring(c, units), next, previous, unitGroups, clusters, how)
    ensures ExpandsAll(units, unitGroups, groups)
  {
    UnitsAreColoured(c, succ, units);
    var cu := HeadColouring(c, units);
    var grouped;
    grouped, clusters, how := PartitionEdges(cu, next, previous);
    unitGroups := grouped;
    OrderedIsAcyclic(next);
    PartitionOfRuns(next, cu, grouped);
    groups := ExpandRuns(units, owner, grouped);
    ExpansionIsPartition(succ, c, units, owner, next, cu, unitGroups, groups);
    forall r | r in accepted ensures exists i :: 0 <= i < |units| && units[i] == r && i in cu.SupportedNodes() {
      var i :| 0 <= i < |units| && units[i] == r;
      assert r[0] in r;
      assert cu.supported[i];
    }
    ExpandedCoarsens(units, unitGroups, groups, cu.SupportedNodes(), accepted);
  }

  /** The accepted regions, and every other node as a unit of its own. */
  method UnitsAround(c: Colouring, n: nat, accepted: seq<seq<nat>>, covered: seq<bool>)
    returns (units: seq<seq<nat>>, ghost singles: seq<seq<nat>>)
    requires c.Valid(n) && |covered| == n
    requires forall v: nat :: v < n ==> (covered[v] <==> v in Occurrences(accepted))
    requires forall v :: v in Occurrences(accepted) ==> v < n
    requires forall v :: Occurrences(accepted)[v] <= 1
    requires forall r :: r in accepted ==> r != [] && StrictlyAscending(r) && c.OneColour(r) && Below(r, n)
    ensures units == accepted + singles && ExactCover(units, Range(n)) && ColouredUnits(c, n, units)
    ensures forall s :: s in singles ==> |s| == 1 && s[0] < n
  {
    ghost var nodes: set<nat> := set v | v in Range(n) && covered[v];
    CoverOfOccurrences(accepted, nodes);
    units, singles := AddSingles(accepted, covered, nodes);
    forall i | 0 <= i < |units|
      ensures units[i] != [] && units[i][0] < n && StrictlyAscending(units[i])
      ensures |units[i]| == 1 || c.OneColour(units[i])
    {
      if i < |accepted| { assert units[i] == accepted[i] && accepted[i] in accepted; }
      else { assert units[i] == singles[i - |accepted|] && units[i] in singles; }
    }
  }

  /** Contract the units and renumber them by their schedule, if there is one. */
  method ScheduleUnits(c: Colouring, succ: Graph, units: seq<seq<nat>>)
    returns (acyclic: bool, moved: seq<seq<nat>>, owner: seq<nat>, next: Graph, previous: Graph)
    requires WellFormed(succ) && c.Valid(|succ|)
    requires ExactCover(units, Range(|succ|)) && ColouredUnits(c, |succ|, units)
    ensures acyclic <==> AcyclicQuotient(succ, units)
    ensures acyclic ==>
              && |owner| == |succ| && Owns(moved, owner) && IsQuotient(succ, owner, next)
              && |next| == |moved| && IsTranspose(next, previous) && Ordered(next)
              && ColouredUnits(c, |succ|, moved)
              && forall unit :: unit in units <==> unit in moved
  {
    moved, next, previous := [], [], [];
    owner := OwnersOf(units, |succ|);
    var edges, incoming := QuotientLists(succ, owner, |units|);
    QuotientScheduleIsGroupSchedule(succ, units, owner, edges);
    var keys := seq(|units|, i requires 0 <= i < |units| => units[i][0]);
    var topology := PriorityOrder(edges, incoming, keys);
    acyclic := |topology| == |units|;
    if acyclic {
      var remap := PositionsOf(topology, |units|, incoming);
      next, previous := Renumber(edges, incoming, topology, remap);
      moved := Picked(units, topology);
      RenumberedQuotient(succ, owner, edges, topology, remap, next, Picked(remap, owner));
      PermutedOwns(units, owner, topology, remap);
      owner := Picked(remap, owner);
      forall unit | unit in units ensures unit in moved {
        var i :| 0 <= i < |units| && units[i] == unit;
        assert moved[remap[i]] == unit;
      }
    }
  }

  /** The unit graph a partition was computed on, and the grouping of the units. */
  datatype UnitView = UnitView(
    units: seq<seq<nat>>, owner: seq<nat>, next: Graph, previous: Graph, unitGroups: seq<seq<nat>>)

  /**
   The groups come from the edge partitioner: applied to the graph itself when no region is
   accepted or contracting the accepted ones loops, and otherwise to the graph whose nodes are the
   accepted regions and the remaining single nodes.
   */
  ghost predicate RegionPartition(
    c: Colouring, succ: Graph, pred: Graph, accepted: seq<seq<nat>>, groups: seq<seq<nat>>,
    view: UnitView, clusters: seq<seq<nat>>, how: Coalescing)
  {
    if accepted == [] || !AcyclicQuotient(succ, accepted) then
      EdgePartition(c, succ, pred, groups, clusters, how)
    else
      && |view.owner| == |succ| && Owns(view.units, view.owner) && IsQuotient(succ, view.owner, view.next)
      && (forall r :: r in accepted ==> r in view.units)
      && (forall unit :: unit in view.units ==> unit in accepted || |unit| == 1)
      && Headed(c, view.units)
      && EdgePartition(HeadColouring(c, view.units), view.next, view.previous, view.unitGroups, clusters, how)
      && ExpandsAll(view.units, view.unitGroups, groups)
  }

  /**
   Partition a graph around proven regions. The result is valid for every graph without cycles. A
   region is kept in one group if it is admissible, unless contracting the admissible regions loops;
   then the regions are ignored.
   */
  method PartitionWithRegions(c: Colouring, succ: Graph, pred: Graph, regions: seq<seq<nat>>)
    returns (groups: seq<seq<nat>>, ghost view: UnitView, ghost clusters: seq<seq<nat>>, ghost how: Coalescing)
    requires IsTranspose(succ, pred) && c.Valid(|succ|)
    ensures Acyclic(succ) ==> ValidPartition(succ, c, groups)
    ensures AcyclicQuotient(succ, Accepted(c, succ, regions)) ==> Coarsens(groups, Accepted(c, succ, regions))
    ensures SetApart(c, succ, regions) ==> Coarsens(groups, regions)
    ensures RegionPartition(c, succ, pred, Accepted(c, succ, regions), groups, view, clusters, how)
    ensures Ordered(succ) ==> ListedAlongEdges(succ, groups)
  {
    var accepted, covered := AcceptRegions(c, succ, regions);
    if SetApart(c, succ, regions) { DisjointRegionsStayWhole(c, succ, regions); }
    ghost var singles;
    view := UnitView([], [], [], [], []);
    if accepted == [] {
      groups, clusters, how := PartitionEdges(c, succ, pred);
      return;
    }
    AcceptedFacts(c, succ, regions);
    var units;
    units, singles := UnitsAround(c, |succ|, accepted, covered);
    SinglesSayNothing(succ, accepted, singles);
    var acyclic, moved, owner, next, previous := ScheduleUnits(c, succ, units);
    if !acyclic {
      groups, clusters, how := PartitionEdges(c, succ, pred);
      return;
    }
    forall r | r in accepted ensures c.OneColour(r) && r in moved { assert r in units; }
    ghost var unitGroups;
    groups, unitGroups, clusters, how := PartitionUnits(c, succ, moved, owner, next, previous, accepted);
    view := UnitView(moved, owner, next, previous, unitGroups);
    forall unit | unit in moved ensures unit in accepted || |unit| == 1 { assert unit in units; }
    if Ordered(succ) { AscendingFollowsOrderedEdges(succ, groups); }
  }
}
