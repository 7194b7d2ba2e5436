/** The convex groups of a graph: closures, greedy merge, and the sorted list of classes. */
module ConvexClusters {
  import opened Graphs
  import opened Kahn
  import opened Colours
  import opened BitRows
  import opened UnionFind
  import opened ConvexMerge
  import opened Sorting

  /** The clusters are the classes of supported nodes, each in index order, sorted by first node. */
  ghost predicate ListsClasses(c: Colouring, rep: seq<nat>, clusters: seq<seq<nat>>) {
    && |rep| == |c.supported|
    && ([] !in clusters)
    && HeadsAscending(clusters)
    && ExactCover(clusters, c.SupportedNodes())
    && forall cl :: cl in clusters ==>
         StrictlyAscending(cl) && forall u :: u in cl ==> u < |rep| && Elements(cl) == ClassOf(c, rep, rep[u])
  }

  /** Every cluster is convex, and no mergeable edge joins two clusters with a convex union. */
  ghost predicate GreedyConvex(c: Colouring, succ: Graph, clusters: seq<seq<nat>>) {
    && c.Valid(|succ|)
    && (forall cl :: cl in clusters ==> Convex(succ, Elements(cl)))
    && forall a, b, u, v :: a in clusters && b in clusters && u in a && v in b && Edge(succ, u, v) && c.Compatible(u, v) ==>
         a == b || !Convex(succ, Elements(a) + Elements(b))
  }

  // ---- Grouping by root -------------------------------------------------------------------------

  ghost predicate GroupedUpTo(c: Colouring, rep: seq<nat>, grouped: map<nat, seq<nat>>, k: nat) {
    && (forall r {:trigger grouped[r]} :: r in grouped ==>
          && grouped[r] != [] && StrictlyAscending(grouped[r])
          && (forall v :: v in grouped[r] <==> v < k && v in ClassOf(c, rep, r)))
    && forall v: nat :: v < k && v < |rep| == |c.supported| && c.supported[v] ==> rep[v] in grouped
  }

  method GroupByRoot(c: Colouring, parent: array<nat>, ghost rep: seq<nat>, ghost height: seq<nat>)
    returns (grouped: map<nat, seq<nat>>)
    requires Forest(parent[..], rep, height) && |rep| == |c.supported|
    modifies parent
    ensures GroupedUpTo(c, rep, grouped, |rep|)
  {
    grouped := map[];
    for node := 0 to |c.supported|
      invariant Forest(parent[..], rep, height)
      invariant GroupedUpTo(c, rep, grouped, node)
    {
      if c.supported[node] {
        var root := UfFind(parent, node, rep, height);
        var group := if root in grouped then grouped[root] else [];
        AddToGroup(c, rep, grouped, node, root, group);
        grouped := grouped[root := group + [node]];
      } else {
        SkipInGroups(c, rep, grouped, node);
      }
    }
  }

  lemma SkipInGroups(c: Colouring, rep: seq<nat>, grouped: map<nat, seq<nat>>, node: nat)
    requires GroupedUpTo(c, rep, grouped, node) && node < |c.supported| && !c.supported[node]
    ensures GroupedUpTo(c, rep, grouped, node + 1)
  {
  }

  lemma AddToGroup(c: Colouring, rep: seq<nat>, grouped: map<nat, seq<nat>>, node: nat, root: nat, group: seq<nat>)
    requires GroupedUpTo(c, rep, grouped, node)
    requires node < |rep| == |c.supported| && c.supported[node] && rep[node] == root
    requires group == if root in grouped then grouped[root] else []
    ensures GroupedUpTo(c, rep, grouped[root := group + [node]], node + 1)
  {
    var next := grouped[root := group + [node]];
    GrownGroup(c, rep, grouped, node, root, group);
    forall r | r in next
      ensures next[r] != [] && StrictlyAscending(next[r])
      ensures forall v :: v in next[r] <==> v < node + 1 && v in ClassOf(c, rep, r)
    {
      if r != root { assert next[r] == grouped[r] && node !in ClassOf(c, rep, r); }
    }
  }

  lemma GrownGroup(c: Colouring, rep: seq<nat>, grouped: map<nat, seq<nat>>, node: nat, root: nat, group: seq<nat>)
    requires GroupedUpTo(c, rep, grouped, node)
    requires node < |rep| == |c.supported| && c.supported[node] && rep[node] == root
    requires group == if root in grouped then grouped[root] else []
    ensures StrictlyAscending(group + [node])
    ensures forall v :: v in group + [node] <==> v < node + 1 && v in ClassOf(c, rep, root)
  {
    forall v ensures v in group <==> v < node && v in ClassOf(c, rep, root) {
      if root in grouped { assert group == grouped[root]; }
    }
    assert forall i :: 0 <= i < |group| ==> group[i] in group;
  }

  ghost predicate Picked(grouped: map<nat, seq<nat>>, picked: seq<nat>, clusters: seq<seq<nat>>) {
    && NoDup(picked)
    && |clusters| == |picked|
    && forall i :: 0 <= i < |picked| ==> picked[i] in grouped && clusters[i] == grouped[picked[i]]
  }

  method ListGroups(grouped: map<nat, seq<nat>>) returns (clusters: seq<seq<nat>>, ghost picked: seq<nat>)
    ensures Picked(grouped, picked, clusters) && Elements(picked) == grouped.Keys
  {
    clusters, picked := [], [];
    var keys := grouped.Keys;
    while keys != {}
      invariant Picked(grouped, picked, clusters)
      invariant keys <= grouped.Keys && Elements(picked) == grouped.Keys - keys
      decreases keys
    {
      var r :| r in keys;
      keys := keys - {r};
      assert r !in Elements(picked);
      assert Elements(picked + [r]) == Elements(picked) + {r};
      clusters, picked := clusters + [grouped[r]], picked + [r];
    }
  }

  lemma PickedListsClasses(
    c: Colouring, rep: seq<nat>, grouped: map<nat, seq<nat>>, picked: seq<nat>, clusters: seq<seq<nat>>)
    requires ColouredClasses(c, rep) && GroupedUpTo(c, rep, grouped, |rep|)
    requires Picked(grouped, picked, clusters) && Elements(picked) == grouped.Keys
    ensures ListsClasses(c, rep, SortByHead(clusters))
  {
    forall i: nat | i < |clusters|
      ensures clusters[i] != [] && StrictlyAscending(clusters[i])
      ensures Elements(clusters[i]) == ClassOf(c, rep, picked[i])
    {
      assert picked[i] in grouped;
    }
    forall i, j, x | 0 <= i < j < |clusters| && x in clusters[i] ensures x !in clusters[j] {
      assert x in Elements(clusters[i]);
      assert x !in Elements(clusters[j]);
    }
    forall v ensures v in c.SupportedNodes() <==> exists cl :: cl in clusters && v in cl {
      if v in c.SupportedNodes() {
        var r := rep[v];
        assert r in Elements(picked);
        var i :| 0 <= i < |picked| && picked[i] == r;
        assert v in Elements(clusters[i]) && clusters[i] in clusters;
      }
      if cl :| cl in clusters && v in cl {
        var i :| 0 <= i < |clusters| && clusters[i] == cl;
        assert v in Elements(clusters[i]);
      }
    }
    DisjointGroupsCover(clusters, c.SupportedNodes());
    SortOccurrences(clusters);
    forall cl, u | cl in clusters && u in cl ensures u < |rep| && Elements(cl) == ClassOf(c, rep, rep[u]) {
      var i :| 0 <= i < |clusters| && clusters[i] == cl;
      assert u in Elements(clusters[i]);
    }
  }

  // ---- Setting up and running the merge ---------------------------------------------------------

  method MergeableEdges(c: Colouring, succ: Graph) returns (edges: seq<(nat, nat)>)
    requires WellFormed(succ) && c.Valid(|succ|)
    ensures forall i :: 0 <= i < |edges| ==>
              Edge(succ, edges[i].0, edges[i].1) && c.Compatible(edges[i].0, edges[i].1)
    ensures forall u: nat, v: nat :: Edge(succ, u, v) && c.Compatible(u, v) ==> (u, v) in edges
  {
    edges := [];
    for node := 0 to |succ|
      invariant forall i :: 0 <= i < |edges| ==>
                  Edge(succ, edges[i].0, edges[i].1) && c.Compatible(edges[i].0, edges[i].1)
      invariant forall u: nat, v: nat :: u < node && Edge(succ, u, v) && c.Compatible(u, v) ==> (u, v) in edges
    {
      if !c.supported[node] { continue; }
      for k := 0 to |succ[node]|
        invariant forall i :: 0 <= i < |edges| ==>
                    Edge(succ, edges[i].0, edges[i].1) && c.Compatible(edges[i].0, edges[i].1)
        invariant forall u: nat, v: nat :: u < node && Edge(succ, u, v) && c.Compatible(u, v) ==> (u, v) in edges
        invariant forall j :: 0 <= j < k && Edge(succ, node, succ[node][j]) && c.Compatible(node, succ[node][j]) ==>
                    (node, succ[node][j]) in edges
      {
        var next := succ[node][k];
        assert next in succ[node];
        if c.supported[next] && c.float64[node] == c.float64[next] && c.classes[node] == c.classes[next] {
          edges := edges + [(node, next)];
        }
      }
    }
  }

  function Identity(n: nat): (r: seq<nat>)
    ensures |r| == n && forall v :: 0 <= v < n ==> r[v] == v
  {
    seq(n, v requires 0 <= v < n => v)
  }

  /** Each supported node starts as its own class, with its own descendants. */
  method InitialRows(c: Colouring, reach: seq<Row>) returns (members: seq<Row>, below: seq<Row>)
    requires c.Valid(|reach|) && Wide(|reach|, reach)
    ensures Wide(|reach|, members) && Wide(|reach|, below)
    ensures forall v :: 0 <= v < |reach| && c.supported[v] ==> Members(members[v]) == {v} && below[v] == reach[v]
  {
    var n := |reach|;
    members := seq(n, _ => ZeroRow(n));
    below := seq(n, _ => ZeroRow(n));
    for index := 0 to n
      invariant Wide(n, members) && Wide(n, below)
      invariant forall v :: index <= v < n ==> members[v] == ZeroRow(n)
      invariant forall v :: 0 <= v < index && c.supported[v] ==> Members(members[v]) == {v} && below[v] == reach[v]
    {
      if c.supported[index] {
        var row := SingleRow(n, members[index], index);
        members := members[index := row];
        below := below[index := reach[index]];
      }
    }
  }

  method SingleRow(n: nat, zero: Row, index: nat) returns (row: Row)
    requires index < n && zero == ZeroRow(n)
    ensures |row| == WordCount(n) && Members(row) == {index}
  {
    var bits := new Word[|zero|](i requires 0 <= i < |zero| => zero[i]);
    assert bits[..] == zero;
    EnoughWords(n, index);
    ZeroRowIsEmpty(n);
    BitSet(bits, index);
    row := bits[..];
  }

  ghost function RowSets(rows: seq<Row>): (sets: seq<set<nat>>)
    ensures |sets| == |rows| && forall v :: 0 <= v < |rows| ==> sets[v] == Members(rows[v])
  {
    seq(|rows|, v requires 0 <= v < |rows| => Members(rows[v]))
  }

  lemma SinglesTracked(c: Colouring, sets: seq<set<nat>>, rows: seq<Row>)
    requires c.Valid(|rows|) && Wide(|rows|, rows) && |sets| == |rows|
    requires forall v :: 0 <= v < |rows| && c.supported[v] ==> Members(rows[v]) == sets[v]
    ensures Tracks(c, Identity(|rows|), sets, rows)
  {
    var rep := Identity(|rows|);
    forall v | 0 <= v < |rows| && c.supported[v] ensures UnionOver(sets, ClassOf(c, rep, v)) == sets[v] {
      assert ClassOf(c, rep, v) == {v};
    }
  }

  lemma SingleNodesClosed(c: Colouring, succ: Graph, pred: Graph)
    requires IsTranspose(succ, pred) && Acyclic(succ) && c.Valid(|succ|)
    ensures ClosedClasses(c, Downward(succ), Downward(pred), Identity(|succ|))
  {
    var rep := Identity(|succ|);
    forall r | 0 <= r < |rep| ensures Closed(Downward(succ), Downward(pred), ClassOf(c, rep, r)) {
      var s := ClassOf(c, rep, r);
      ClosedIsConvex(succ, pred, s);
      ConvexIffNothingBetween(succ, s);
      forall x: nat ensures !(Reaches(succ, r, x) && Reaches(succ, x, r)) { NotBothWays(succ, r, x); }
    }
  }

  lemma NotBothWays(g: Graph, u: nat, v: nat)
    requires Acyclic(g)
    ensures !(Reaches(g, u, v) && Reaches(g, v, u))
  {
    if Reaches(g, u, v) && Reaches(g, v, u) {
      ReachesTransitive(g, u, v, u);
      AcyclicHasNoCycle(g, u);
    }
  }

  lemma ClosedMeansGreedyConvex(
    c: Colouring, succ: Graph, pred: Graph, rep: seq<nat>, edges: seq<(nat, nat)>, clusters: seq<seq<nat>>)
    requires IsTranspose(succ, pred) && ColouredClasses(c, rep) && |rep| == |succ|
    requires ClosedClasses(c, Downward(succ), Downward(pred), rep)
    requires BlockedUpTo(c, Downward(succ), Downward(pred), rep, edges, |edges|)
    requires forall u: nat, v: nat :: Edge(succ, u, v) && c.Compatible(u, v) ==> (u, v) in edges
    requires ListsClasses(c, rep, clusters)
    ensures GreedyConvex(c, succ, clusters)
  {
    var down, up := Downward(succ), Downward(pred);
    forall cl | cl in clusters ensures Convex(succ, Elements(cl)) {
      assert cl != [] && cl[0] in cl;
      ClosedIsConvex(succ, pred, Elements(cl));
    }
    forall a, b, u, v | a in clusters && b in clusters && u in a && v in b && Edge(succ, u, v) && c.Compatible(u, v)
      ensures a == b || !Convex(succ, Elements(a) + Elements(b))
    {
      var i :| 0 <= i < |edges| && edges[i] == (u, v);
      assert Blocked(c, down, up, rep, edges[i]);
      if rep[u] == rep[v] {
        assert v in Elements(b);
        assert v in Elements(a);
        SharedNodeSameGroup(clusters, c.SupportedNodes(), a, b, v);
      } else {
        ClosedIsConvex(succ, pred, Elements(a) + Elements(b));
      }
    }
  }

  lemma SharedNodeSameGroup(groups: seq<seq<nat>>, nodes: set<nat>, a: seq<nat>, b: seq<nat>, v: nat)
    requires ExactCover(groups, nodes) && a in groups && b in groups && v in a && v in b
    ensures a == b
  {
    var i :| 0 <= i < |groups| && groups[i] == a;
    var j :| 0 <= j < |groups| && groups[j] == b;
    assert multiset(nodes)[v] <= 1;
    NodeHasOneGroup(groups, i, j, v);
  }

  /** Descendant and ancestor rows; exact on a graph without cycles. */
  method Closures(succ: Graph, pred: Graph) returns (reach: seq<Row>, ancestors: seq<Row>)
    requires IsTranspose(succ, pred)
    ensures Wide(|succ|, reach) && Wide(|succ|, ancestors)
    ensures Acyclic(succ) ==> RowSets(reach) == Downward(succ) && RowSets(ancestors) == Downward(pred)
  {
    var n := |succ|;
    var order := StackOrder(succ, pred);
    ghost var complete := |order| == n;
    if |order| != n { order := Identity(n); }
    if complete { ReversedOrder(succ, pred, order); }
    assert Below(Reversed(order), n);
    reach := Closure(succ, Reversed(order));
    ancestors := Closure(pred, order);
    if complete {
      assert RowSets(reach) == Downward(succ);
      assert RowSets(ancestors) == Downward(pred);
    }
  }

  /**
   The greedy convex clusters. For a graph without cycles every cluster is convex and no mergeable
   edge is left between two clusters whose union would still be convex.
   */
  method MergedClusters(c: Colouring, succ: Graph, pred: Graph)
    returns (clusters: seq<seq<nat>>, ghost rep: seq<nat>)
    requires IsTranspose(succ, pred) && c.Valid(|succ|)
    ensures |rep| == |succ| && ColouredClasses(c, rep) && ListsClasses(c, rep, clusters)
    ensures Acyclic(succ) ==> GreedyConvex(c, succ, clusters)
  {
    var n := |succ|;
    var reach, ancestors := Closures(succ, pred);
    var members, below := InitialRows(c, reach);
    ghost var down, up := RowSets(reach), RowSets(ancestors);
    SinglesTracked(c, Singletons(n), members);
    SinglesTracked(c, down, below);
    SinglesTracked(c, up, ancestors);
    var parent := new nat[n](v => v);
    assert parent[..] == Identity(n);
    ghost var height: seq<nat> := seq(n, _ => 0);
    var edges := MergeableEdges(c, succ);
    rep, height :=
      MergeAlong(c, edges, parent, Tables(members, below, ancestors), down, up, Identity(n), height);
    var grouped := GroupByRoot(c, parent, rep, height);
    ghost var picked;
    clusters, picked := ListGroups(grouped);
    PickedListsClasses(c, rep, grouped, picked, clusters);
    clusters := SortByHead(clusters);
    if Acyclic(succ) {
      SingleNodesClosed(c, succ, pred);
      ClosedMeansGreedyConvex(c, succ, pred, rep, edges, clusters);
    }
  }
}
