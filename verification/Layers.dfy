/** Splitting groups every few layer boundaries, and the whole capability pipeline. */
module Layers {
  import opened Graphs
  import opened Kahn
  import opened ConvexClusters
  import opened Colours
  import opened ColourRuns
  import opened Sorting
  import opened ClusterEdges
  import opened Regions

  function Concat(parts: seq<seq<nat>>): (all: seq<nat>) {
    if parts == [] then [] else Concat(parts[..|parts| - 1]) + parts[|parts| - 1]
  }

  /** How many nodes of a part end a layer. */
  function LayerEnds(boundary: seq<bool>, part: seq<nat>): (n: nat) {
    if part == [] then 0
    else
      var v := part[|part| - 1];
      LayerEnds(boundary, part[..|part| - 1]) + if v < |boundary| && boundary[v] then 1 else 0
  }

  /** The positions of a part that hold the end of a layer. */
  ghost function EndPositions(boundary: seq<bool>, part: seq<nat>): (ends: set<nat>) {
    set p: nat | p < |part| && part[p] < |boundary| && boundary[part[p]]
  }

  lemma {:induction false} LayerEndsMeans(boundary: seq<bool>, part: seq<nat>)
    ensures LayerEnds(boundary, part) == |EndPositions(boundary, part)|
  {
    if part != [] {
      var n := |part| - 1;
      LayerEndsMeans(boundary, part[..n]);
      var front := EndPositions(boundary, part[..n]);
      assert EndPositions(boundary, part) ==
             front + if part[n] < |boundary| && boundary[part[n]] then {n} else {};
      assert n !in front;
    }
  }

  ghost predicate EndsAtBoundary(boundary: seq<bool>, part: seq<nat>) {
    part != [] && part[|part| - 1] < |boundary| && boundary[part[|part| - 1]]
  }

  /** A part holding exactly `span` layer ends, the last of them at its end. */
  ghost predicate FullPart(boundary: seq<bool>, span: nat, part: seq<nat>) {
    LayerEnds(boundary, part) == span && EndsAtBoundary(boundary, part)
  }

  /** A cut of one cluster: full parts, and a remainder with fewer layer ends. */
  ghost predicate CutOf(boundary: seq<bool>, span: nat, cluster: seq<nat>, parts: seq<seq<nat>>) {
    && Concat(parts) == cluster
    && ([] !in parts)
    && (forall i :: 0 <= i < |parts| - 1 ==> FullPart(boundary, span, parts[i]))
    && (parts != [] ==> FullPart(boundary, span, parts[|parts| - 1]) || LayerEnds(boundary, parts[|parts| - 1]) < span || span == 0)
  }

  /** Cut one cluster after every `span` layer ends; a span of zero never cuts. */
  method SplitCluster(boundary: seq<bool>, span: nat, cluster: seq<nat>) returns (parts: seq<seq<nat>>)
    ensures CutOf(boundary, span, cluster, parts)
  {
    parts := [];
    var part: seq<nat> := [];
    var layers := 0;
    for i := 0 to |cluster|
      invariant Concat(parts) + part == cluster[..i]
      invariant [] !in parts
      invariant forall j :: 0 <= j < |parts| ==> FullPart(boundary, span, parts[j])
      invariant layers == LayerEnds(boundary, part) && (layers < span || span == 0)
      invariant span == 0 ==> parts == []
    {
      var node := cluster[i];
      LayerEndsSnoc(boundary, part, node);
      assert cluster[..i + 1] == cluster[..i] + [node];
      part := part + [node];
      if node < |boundary| && boundary[node] {
        layers := layers + 1;
        if layers == span {
          ConcatSnoc(parts, part);
          parts, part, layers := parts + [part], [], 0;
        }
      }
    }
    assert cluster[..|cluster|] == cluster;
    if part != [] {
      ConcatSnoc(parts, part);
      parts := parts + [part];
    }
  }

  lemma LayerEndsSnoc(boundary: seq<bool>, part: seq<nat>, v: nat)
    ensures LayerEnds(boundary, part + [v]) ==
            LayerEnds(boundary, part) + if v < |boundary| && boundary[v] then 1 else 0
  {
    assert (part + [v])[..|part|] == part;
  }

  lemma ConcatSnoc(parts: seq<seq<nat>>, part: seq<nat>)
    ensures Concat(parts + [part]) == Concat(parts) + part
  {
    assert (parts + [part])[..|parts|] == parts;
  }

  function Join(cuts: seq<seq<seq<nat>>>): (all: seq<seq<nat>>) {
    if cuts == [] then [] else Join(cuts[..|cuts| - 1]) + cuts[|cuts| - 1]
  }

  /** Every cluster is cut on its own, and the parts are listed cluster by cluster. */
  ghost predicate Cuts(
    boundary: seq<bool>, span: nat, clusters: seq<seq<nat>>, cuts: seq<seq<seq<nat>>>)
  {
    |cuts| == |clusters| && forall i :: 0 <= i < |cuts| ==> CutOf(boundary, span, clusters[i], cuts[i])
  }

  // ---- Nothing is lost and the order is kept ----------------------------------------------------

  lemma {:induction false} ConcatOccurrences(parts: seq<seq<nat>>)
    ensures Occurrences(parts) == multiset(Concat(parts))
  {
    if parts != [] { ConcatOccurrences(parts[..|parts| - 1]); }
  }

  lemma {:induction false} JoinOccurrences(boundary: seq<bool>, span: nat, clusters: seq<seq<nat>>, cuts: seq<seq<seq<nat>>>)
    requires Cuts(boundary, span, clusters, cuts)
    ensures Occurrences(Join(cuts)) == Occurrences(clusters)
  {
    if cuts != [] {
      var n := |cuts| - 1;
      JoinOccurrences(boundary, span, clusters[..n], cuts[..n]);
      OccurrencesAppend(Join(cuts[..n]), cuts[n]);
      ConcatOccurrences(cuts[n]);
      assert CutOf(boundary, span, clusters[n], cuts[n]);
    }
  }

  lemma {:induction false} JoinMembers(cuts: seq<seq<seq<nat>>>, part: seq<nat>)
    ensures part in Join(cuts) <==> exists i :: 0 <= i < |cuts| && part in cuts[i]
  {
    if cuts != [] {
      var n := |cuts| - 1;
      JoinMembers(cuts[..n], part);
      if i :| 0 <= i < n && part in cuts[..n][i] { assert part in cuts[i]; }
      if i :| 0 <= i < |cuts| && part in cuts[i] { assert i < n ==> part in cuts[..n][i]; }
    }
  }

  /** Nodes of a later part come later in the cluster. */
  lemma {:induction false} PartsInOrder(parts: seq<seq<nat>>, a: nat, b: nat, x: nat, y: nat)
    requires a < b < |parts| && x in parts[a] && y in parts[b]
    ensures exists p, q :: 0 <= p < q < |Concat(parts)| && Concat(parts)[p] == x && Concat(parts)[q] == y
    decreases |parts|
  {
    var n := |parts| - 1;
    var front := Concat(parts[..n]);
    assert Concat(parts) == front + parts[n];
    if b < n {
      PartsInOrder(parts[..n], a, b, x, y);
      var p, q :| 0 <= p < q < |front| && front[p] == x && front[q] == y;
      assert Concat(parts)[p] == x && Concat(parts)[q] == y;
    } else {
      ConcatHas(parts[..n], a, x);
      var p :| 0 <= p < |front| && front[p] == x;
      var k :| 0 <= k < |parts[n]| && parts[n][k] == y;
      assert Concat(parts)[p] == x && Concat(parts)[|front| + k] == y;
    }
  }

  lemma {:induction false} ConcatHas(parts: seq<seq<nat>>, a: nat, x: nat)
    requires a < |parts| && x in parts[a]
    ensures x in Concat(parts)
  {
    var n := |parts| - 1;
    if a < n { ConcatHas(parts[..n], a, x); }
  }

  // ---- The lexicographic schedule ---------------------------------------------------------------

  ghost predicate LiesIn(cuts: seq<seq<seq<nat>>>, v: nat, i: nat, j: nat) {
    i < |cuts| && j < |cuts[i]| && v in cuts[i][j]
  }

  ghost function PartIndex(cuts: seq<seq<seq<nat>>>, v: nat): (n: nat) {
    if i: nat, j: nat :| LiesIn(cuts, v, i, j) then j else 0
  }

  ghost function Longest(cuts: seq<seq<seq<nat>>>): (n: nat) {
    if cuts == [] then 0
    else
      var m := Longest(cuts[..|cuts| - 1]);
      if m < |cuts[|cuts| - 1]| then |cuts[|cuts| - 1]| else m
  }

  lemma {:induction false} LongestBounds(cuts: seq<seq<seq<nat>>>, i: nat)
    requires i < |cuts|
    ensures |cuts[i]| <= Longest(cuts)
  {
    if i < |cuts| - 1 { LongestBounds(cuts[..|cuts| - 1], i); }
  }

  /** A node lies in one part of one cluster only. */
  lemma OnePlace(
    boundary: seq<bool>, span: nat, clusters: seq<seq<nat>>, cuts: seq<seq<seq<nat>>>, nodes: set<nat>,
    v: nat, i: nat, j: nat, i': nat, j': nat)
    requires Cuts(boundary, span, clusters, cuts) && ExactCover(clusters, nodes)
    requires LiesIn(cuts, v, i, j) && LiesIn(cuts, v, i', j')
    ensures i == i' && j == j'
    ensures v in clusters[i]
  {
    assert multiset(nodes)[v] <= 1;
    assert CutOf(boundary, span, clusters[i], cuts[i]) && CutOf(boundary, span, clusters[i'], cuts[i']);
    ConcatHas(cuts[i], j, v);
    ConcatHas(cuts[i'], j', v);
    NodeHasOneGroup(clusters, i, i', v);
    GroupCount(clusters, clusters[i], v);
    ConcatOccurrences(cuts[i]);
    NodeHasOneGroup(cuts[i], j, j', v);
  }

  lemma PartIndexIs(
    boundary: seq<bool>, span: nat, clusters: seq<seq<nat>>, cuts: seq<seq<seq<nat>>>, nodes: set<nat>,
    v: nat, i: nat, j: nat)
    requires Cuts(boundary, span, clusters, cuts) && ExactCover(clusters, nodes) && LiesIn(cuts, v, i, j)
    ensures PartIndex(cuts, v) == j && v in clusters[i]
  {
    var i': nat, j': nat :| LiesIn(cuts, v, i', j') && PartIndex(cuts, v) == j';
    OnePlace(boundary, span, clusters, cuts, nodes, v, i, j, i', j');
  }

  lemma ClusterNodeLies(
    boundary: seq<bool>, span: nat, clusters: seq<seq<nat>>, cuts: seq<seq<seq<nat>>>, i: nat, v: nat)
    returns (j: nat)
    requires Cuts(boundary, span, clusters, cuts) && i < |clusters| && v in clusters[i]
    ensures LiesIn(cuts, v, i, j)
  {
    assert CutOf(boundary, span, clusters[i], cuts[i]);
    ConcatOccurrences(cuts[i]);
    assert v in multiset(Concat(cuts[i]));
    OccurrenceHasGroup(cuts[i], v);
    var part :| part in cuts[i] && v in part;
    j :| 0 <= j < |cuts[i]| && cuts[i][j] == part;
  }

  lemma PartIndexBound(cuts: seq<seq<seq<nat>>>, v: nat)
    ensures PartIndex(cuts, v) <= Longest(cuts)
  {
    if i: nat, j: nat :| LiesIn(cuts, v, i, j) {
      var i': nat, j': nat :| LiesIn(cuts, v, i', j') && PartIndex(cuts, v) == j';
      LongestBounds(cuts, i');
    }
  }

  lemma Lexicographic(a: nat, b: nat, p: nat, q: nat, base: nat)
    requires a < b && p < base
    ensures a * base + p < b * base + q
  {
    assert (a + 1) * base <= b * base;
  }

  /**
   Cutting groups that are listed along their inner edges keeps the partition valid: order first by
   group, then by part.
   */
  lemma SplitIsPartition(
    g: Graph, c: Colouring, boundary: seq<bool>, span: nat, clusters: seq<seq<nat>>, cuts: seq<seq<seq<nat>>>)
    requires Cuts(boundary, span, clusters, cuts)
    requires ValidPartition(g, c, clusters) && ListedAlongEdges(g, clusters)
    ensures ValidPartition(g, c, Join(cuts))
  {
    var split, nodes := Join(cuts), c.SupportedNodes();
    JoinOccurrences(boundary, span, clusters, cuts);
    forall part | part in split
      ensures part != [] && c.OneColour(part) && exists i: nat, j: nat :: i < |cuts| && j < |cuts[i]| && cuts[i][j] == part
    {
      JoinMembers(cuts, part);
      var i :| 0 <= i < |cuts| && part in cuts[i];
      var j :| 0 <= j < |cuts[i]| && cuts[i][j] == part;
      assert CutOf(boundary, span, clusters[i], cuts[i]) && c.OneColour(clusters[i]);
      PartColour(c, clusters[i], cuts[i], j);
    }
    var rank :| QuotientRank(g, clusters, rank);
    SplitSchedule(g, c, boundary, span, clusters, cuts, rank);
  }

  lemma PartColour(c: Colouring, cluster: seq<nat>, parts: seq<seq<nat>>, j: nat)
    requires c.OneColour(cluster) && Concat(parts) == cluster && j < |parts|
    ensures c.OneColour(parts[j])
  {
    forall v | v in parts[j] ensures v in cluster { ConcatHas(parts, j, v); }
    if parts[j] != [] { assert parts[j][0] in parts[j]; }
  }

  lemma SplitSchedule(
    g: Graph, c: Colouring, boundary: seq<bool>, span: nat, clusters: seq<seq<nat>>, cuts: seq<seq<seq<nat>>>,
    rank: seq<nat>)
    requires Cuts(boundary, span, clusters, cuts) && ExactCover(clusters, c.SupportedNodes())
    requires QuotientRank(g, clusters, rank) && ListedAlongEdges(g, clusters)
    ensures AcyclicQuotient(g, Join(cuts))
  {
    var split, base := Join(cuts), Longest(cuts) + 1;
    var rank' : seq<nat> := seq(|g|, v requires 0 <= v < |g| => rank[v] * base + PartIndex(cuts, v));
    forall part, u, v | part in split && u in part && v in part
      ensures u < |g| && v < |g| && rank'[u] == rank'[v]
    {
      JoinMembers(cuts, part);
      var i :| 0 <= i < |cuts| && part in cuts[i];
      var j :| 0 <= j < |cuts[i]| && cuts[i][j] == part;
      PartIndexIs(boundary, span, clusters, cuts, c.SupportedNodes(), u, i, j);
      PartIndexIs(boundary, span, clusters, cuts, c.SupportedNodes(), v, i, j);
      assert clusters[i] in clusters;
    }
    forall u: nat, v: nat | Edge(g, u, v) ensures Together(split, u, v) || rank'[u] < rank'[v] {
      if u != v {
        if Together(clusters, u, v) {
          InnerEdge(g, c, boundary, span, clusters, cuts, u, v);
          var cl :| cl in clusters && u in cl && v in cl;
          assert rank[u] == rank[v];
        } else {
          PartIndexBound(cuts, u);
          Lexicographic(rank[u], rank[v], PartIndex(cuts, u), PartIndex(cuts, v), base);
        }
      }
    }
    assert QuotientRank(g, split, rank');
  }

  lemma InnerEdge(
    g: Graph, c: Colouring, boundary: seq<bool>, span: nat, clusters: seq<seq<nat>>, cuts: seq<seq<seq<nat>>>,
    u: nat, v: nat)
    requires Cuts(boundary, span, clusters, cuts) && ExactCover(clusters, c.SupportedNodes())
    requires ListedAlongEdges(g, clusters)
    requires Edge(g, u, v) && u != v && Together(clusters, u, v)
    ensures Together(Join(cuts), u, v) || PartIndex(cuts, u) < PartIndex(cuts, v)
  {
    var cl :| cl in clusters && u in cl && v in cl;
    var i :| 0 <= i < |clusters| && clusters[i] == cl;
    var a := ClusterNodeLies(boundary, span, clusters, cuts, i, u);
    var b := ClusterNodeLies(boundary, span, clusters, cuts, i, v);
    PartIndexIs(boundary, span, clusters, cuts, c.SupportedNodes(), u, i, a);
    PartIndexIs(boundary, span, clusters, cuts, c.SupportedNodes(), v, i, b);
    assert CutOf(boundary, span, clusters[i], cuts[i]);
    if a == b {
      JoinMembers(cuts, cuts[i][a]);
      assert cuts[i][a] in cuts[i];
    } else if b < a {
      PartsInOrder(cuts[i], b, a, v, u);
    }
  }

  // ---- Contiguous groups ------------------------------------------------------------------------

  function Stretch(start: nat, end: nat): (r: seq<nat>)
    requires start <= end
    ensures |r| == end - start && forall i :: 0 <= i < |r| ==> r[i] == start + i
  {
    seq(end - start, i requires 0 <= i < end - start => start + i)
  }

  /** The first supported node from `start` on. */
  method SkipUnsupported(c: Colouring, n: nat, start0: nat, ghost clusters: seq<seq<nat>>, ghost starts: seq<nat>)
    returns (start: nat)
    requires c.Valid(n) && start0 <= n && MaximalRuns(c, Identity(start0), clusters, starts)
    ensures start0 <= start <= n && MaximalRuns(c, Identity(start), clusters, starts)
    ensures start < n ==> c.supported[start]
    ensures start0 < start ==> !c.supported[start - 1]
  {
    start := start0;
    while start < n && !c.supported[start]
      invariant start0 <= start <= n && MaximalRuns(c, Identity(start), clusters, starts)
      invariant start0 < start ==> !c.supported[start - 1]
    {
      SkipNode(c, Identity(start), start, clusters, starts);
      assert Identity(start + 1) == Identity(start) + [start];
      start := start + 1;
    }
  }

  /** The end of the one-colour stretch that starts at a supported node. */
  method StretchEnd(c: Colouring, n: nat, start: nat, ghost clusters: seq<seq<nat>>, ghost starts: seq<nat>)
    returns (end: nat)
    requires c.Valid(n) && start < n && c.supported[start]
    requires MaximalRuns(c, Identity(start), clusters, starts)
    requires 0 < start ==> !c.Compatible(start - 1, start)
    ensures start < end <= n
    ensures MaximalRuns(c, Identity(end), clusters + [Stretch(start, end)], starts + [start])
    ensures end < n ==> !c.Compatible(end - 1, end)
  {
    end := start + 1;
    while end < n && c.supported[end] && c.float64[end] == c.float64[start] && c.classes[end] == c.classes[start]
      invariant start < end <= n && forall k :: start <= k < end ==> c.Compatible(start, k)
    {
      end := end + 1;
    }
    assert c.Compatible(start, end - 1);
    StretchRuns(c, start, end, clusters, starts);
  }

  lemma {:induction false} StretchRuns(c: Colouring, start: nat, end: nat, clusters: seq<seq<nat>>, starts: seq<nat>)
    requires start < end <= |c.supported| == |c.float64| == |c.classes|
    requires forall k :: start <= k < end ==> c.Compatible(start, k)
    requires MaximalRuns(c, Identity(start), clusters, starts)
    requires 0 < start ==> !c.Compatible(start - 1, start)
    ensures MaximalRuns(c, Identity(end), clusters + [Stretch(start, end)], starts + [start])
    decreases end
  {
    if end == start + 1 {
      OpenStretch(c, start, clusters, starts);
    } else {
      assert c.Compatible(start, end - 2) && c.Compatible(start, end - 1);
      StretchRuns(c, start, end - 1, clusters, starts);
      GrowStretch(c, start, end - 1, clusters, starts);
    }
  }

  lemma OpenStretch(c: Colouring, start: nat, clusters: seq<seq<nat>>, starts: seq<nat>)
    requires start < |c.supported| == |c.float64| == |c.classes| && c.supported[start]
    requires MaximalRuns(c, Identity(start), clusters, starts)
    requires 0 < start ==> !c.Compatible(start - 1, start)
    ensures MaximalRuns(c, Identity(start + 1), clusters + [Stretch(start, start + 1)], starts + [start])
  {
    OpenRun(c, Identity(start), clusters, starts, start);
    assert Identity(start + 1) == Identity(start) + [start];
    assert Stretch(start, start + 1) == [start];
  }

  lemma GrowStretch(c: Colouring, start: nat, end: nat, clusters: seq<seq<nat>>, starts: seq<nat>)
    requires start < end < |c.supported| == |c.float64| == |c.classes| && c.Compatible(end - 1, end)
    requires MaximalRuns(c, Identity(end), clusters + [Stretch(start, end)], starts + [start])
    ensures MaximalRuns(c, Identity(end + 1), clusters + [Stretch(start, end + 1)], starts + [start])
  {
    var runs := clusters + [Stretch(start, end)];
    ExtendRun(c, Identity(end), runs, starts + [start], end);
    assert Identity(end + 1) == Identity(end) + [end];
    assert Stretch(start, end + 1) == Stretch(start, end) + [end];
    assert runs[|runs| - 1 := runs[|runs| - 1] + [end]] == clusters + [Stretch(start, end + 1)];
  }

  /** Group maximal stretches of one supported colour in the given node order. */
  method BuildContiguousClusters(c: Colouring, n: nat) returns (clusters: seq<seq<nat>>, ghost starts: seq<nat>)
    requires c.Valid(n)
    ensures MaximalRuns(c, Identity(n), clusters, starts)
  {
    clusters, starts := [], [];
    var start := 0;
    assert Identity(0) == [];
    while start < n
      invariant start <= n && MaximalRuns(c, Identity(start), clusters, starts)
      invariant 0 < start < n ==> !c.Compatible(start - 1, start)
    {
      start := SkipUnsupported(c, n, start, clusters, starts);
      if start == n { break; }
      var end := StretchEnd(c, n, start, clusters, starts);
      clusters, starts := clusters + [Stretch(start, end)], starts + [start];
      start := end;
    }
  }

  lemma OrderedIdentity(succ: Graph, pred: Graph)
    requires IsTranspose(succ, pred) && Ordered(succ)
    ensures TopologicalOrder(pred, Identity(|succ|))
  {
    var order := Identity(|succ|);
    forall i, u | 0 <= i < |order| && u in pred[order[i]] ensures u in order[..i] {
      TransposeEdge(succ, pred, u, i);
      assert Edge(succ, u, i);
      assert order[..i][u] == u;
    }
    forall v: nat | v < |succ| ensures v in Elements(order) { assert order[v] == v; }
    assert Elements(order) == Range(|pred|);
  }

  // ---- The pipeline -----------------------------------------------------------------------------

  /** Cut every cluster of a partition. */
  method SplitLayers(boundary: seq<bool>, span: nat, clusters: seq<seq<nat>>)
    returns (split: seq<seq<nat>>, ghost cuts: seq<seq<seq<nat>>>)
    ensures Cuts(boundary, span, clusters, cuts) && split == Join(cuts)
    ensures Occurrences(split) == Occurrences(clusters)
  {
    split, cuts := [], [];
    for i := 0 to |clusters|
      invariant Cuts(boundary, span, clusters[..i], cuts) && split == Join(cuts)
    {
      var parts := SplitCluster(boundary, span, clusters[i]);
      assert (cuts + [parts])[..|cuts|] == cuts;
      split, cuts := split + parts, cuts + [parts];
    }
    assert clusters[..|clusters|] == clusters;
    JoinOccurrences(boundary, span, clusters, cuts);
  }

  /**
   The claimed groups for a graph listed in topological order: contiguous stretches or a partition
   around the regions, then cut at layer boundaries if asked. Every result is a valid partition, and
   so every fused group is convex.
   */
  method ClaimGroups(
    c: Colouring, succ: Graph, pred: Graph, contiguous: bool, regions: seq<seq<nat>>,
    boundary: seq<bool>, split: bool, span: nat)
    returns (groups: seq<seq<nat>>, ghost clusters: seq<seq<nat>>, ghost cuts: seq<seq<seq<nat>>>)
    requires IsTranspose(succ, pred) && c.Valid(|succ|) && Ordered(succ)
    ensures ValidPartition(succ, c, groups)
    ensures forall group :: group in groups ==> Convex(succ, Elements(group))
    ensures forall group {:trigger group in groups} :: group in groups ==> Uniform(c, group)
    ensures !contiguous && SetApart(c, succ, regions) ==> Coarsens(clusters, regions)
    ensures if contiguous then exists starts :: MaximalRuns(c, Identity(|succ|), clusters, starts)
            else AcyclicQuotient(succ, Accepted(c, succ, regions)) ==> Coarsens(clusters, Accepted(c, succ, regions))
    ensures if split then Cuts(boundary, span, clusters, cuts) && groups == Join(cuts) else groups == clusters
  {
    OrderedIsAcyclic(succ);
    var merged;
    if contiguous {
      ghost var starts;
      merged, starts := BuildContiguousClusters(c, |succ|);
      OrderedIdentity(succ, pred);
      RunsArePartition(succ, pred, c, Identity(|succ|), merged, starts);
      IntervalsFollowEdges(succ, pred, Identity(|succ|), merged, starts);
    } else {
      ghost var view, inner, how;
      merged, view, inner, how := PartitionWithRegions(c, succ, pred, regions);
    }
    clusters, cuts, groups := merged, [], merged;
    if split {
      groups, cuts := SplitLayers(boundary, span, merged);
      SplitIsPartition(succ, c, boundary, span, merged, cuts);
    }
    forall group | group in groups ensures Convex(succ, Elements(group)) && Uniform(c, group) {
      GroupsAreConvex(succ, c, groups, group);
      OneColourMeans(c, group);
    }
  }

  /** All nodes of a group are supported and agree on float64 use and compile class. */
  ghost predicate Uniform(c: Colouring, group: seq<nat>) {
    && |c.supported| == |c.float64| == |c.classes|
    && forall u, v :: u in group && v in group ==>
         && u < |c.supported| && v < |c.supported|
         && c.supported[u] && c.float64[u] == c.float64[v] && c.classes[u] == c.classes[v]
  }

  /** In a valid partition every group is convex in the original graph. */
  lemma GroupsAreConvex(g: Graph, c: Colouring, groups: seq<seq<nat>>, group: seq<nat>)
    requires ValidPartition(g, c, groups) && group in groups
    ensures Convex(g, Elements(group))
  {
    forall a, b, v | a in groups && b in groups && v in a && v in b ensures a == b {
      var i :| 0 <= i < |groups| && groups[i] == a;
      var j :| 0 <= j < |groups| && groups[j] == b;
      assert multiset(c.SupportedNodes())[v] <= 1;
      NodeHasOneGroup(groups, i, j, v);
    }
    AcyclicQuotientMakesGroupsConvex(g, groups, group);
    assert Elements(group) == set v | v in group;
  }

  /** Edges 1 to 2 and 2 to 0, all nodes in one group listed 0, 1, 2. */
  ghost function BackwardGraph(): (g: Graph) {
    [[], [2], [0]]
  }

  /**
   Without the listing order, the splitter can turn a schedulable group into a loop: node 1 ends a
   layer, and the cut after it leaves 1 before 2 before 0 in two parts.
   */
  lemma CutAcrossListingLoops()
    ensures AcyclicQuotient(BackwardGraph(), [[0, 1, 2]])
    ensures CutOf([false, true, false], 1, [0, 1, 2], [[0, 1], [2]])
    ensures !AcyclicQuotient(BackwardGraph(), [[0, 1], [2]])
  {
    WholeIsSchedulable();
    CutAfterOne();
    PartsLoop();
  }

  lemma WholeIsSchedulable()
    ensures AcyclicQuotient(BackwardGraph(), [[0, 1, 2]])
  {
    var whole: seq<seq<nat>> := [[0, 1, 2]];
    assert whole[0] in whole;
    forall u: nat, v: nat | Edge(BackwardGraph(), u, v) ensures Together(whole, u, v) {
      assert u in whole[0] && v in whole[0];
    }
    assert QuotientRank(BackwardGraph(), whole, [0, 0, 0]);
  }

  lemma CutAfterOne()
    ensures CutOf([false, true, false], 1, [0, 1, 2], [[0, 1], [2]])
  {
    var boundary, empty: seq<nat>, none: seq<seq<nat>> := [false, true, false], [], [];
    assert none + [[0, 1]] == [[0, 1]] && [[0, 1]] + [[2]] == [[0, 1], [2]];
    ConcatSnoc(none, [0, 1]);
    ConcatSnoc([[0, 1]], [2]);
    assert empty + [0] == [0] && [0] + [1] == [0, 1] && empty + [2] == [2];
    LayerEndsSnoc(boundary, empty, 0);
    LayerEndsSnoc(boundary, [0], 1);
    LayerEndsSnoc(boundary, empty, 2);
  }

  lemma PartsLoop()
    ensures !AcyclicQuotient(BackwardGraph(), [[0, 1], [2]])
  {
    var g, parts: seq<seq<nat>> := BackwardGraph(), [[0, 1], [2]];
    forall rank ensures !QuotientRank(g, parts, rank) {
      assert Edge(g, 1, 2) && Edge(g, 2, 0);
      assert parts[0] in parts && 0 in parts[0] && 1 in parts[0];
      assert !Together(parts, 1, 2) && !Together(parts, 2, 0);
    }
  }
}
