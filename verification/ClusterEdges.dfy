/** The edge partitioner: convex clusters, then coalescing or the colour-run fallback. */
module ClusterEdges {
  import opened Graphs
  import opened Kahn
  import opened Colours
  import opened ColourRuns
  import opened ConvexMerge
  import opened ConvexClusters
  import opened Quotients
  import opened Sorting

  /** Every cluster lies wholly in one group. */
  ghost predicate Coarsens(groups: seq<seq<nat>>, clusters: seq<seq<nat>>) {
    forall cl :: cl in clusters ==> WithinOne(groups, cl)
  }

  ghost predicate WithinOne(groups: seq<seq<nat>>, cl: seq<nat>) {
    exists g :: g in groups && Elements(cl) <= Elements(g)
  }

  /** Shape-keyed and eager clusters keep their boundaries. */
  ghost predicate KeepsBoundaries(c: Colouring, groups: seq<seq<nat>>, clusters: seq<seq<nat>>) {
    forall cl :: cl in clusters && KeepsBoundary(c, cl) ==> cl in groups
  }

  predicate KeepsBoundary(c: Colouring, cl: seq<nat>) {
    cl != [] && cl[0] < |c.classes| && c.classes[cl[0]] != Shapeless
  }

  ghost predicate AllAscending(groups: seq<seq<nat>>) {
    forall g :: g in groups ==> StrictlyAscending(g)
  }

  ghost predicate Headed(c: Colouring, units: seq<seq<nat>>) {
    && |c.supported| == |c.float64| == |c.classes|
    && forall i {:trigger units[i]} :: 0 <= i < |units| ==> units[i] != [] && units[i][0] < |c.supported|
  }

  /** The unit colouring read off the first node of each unit. */
  function HeadColouring(c: Colouring, units: seq<seq<nat>>): (cu: Colouring)
    requires Headed(c, units)
    ensures cu.Valid(|units|)
  {
    Colouring(
      seq(|units|, i requires 0 <= i < |units| => c.supported[units[i][0]]),
      seq(|units|, i requires 0 <= i < |units| => c.float64[units[i][0]]),
      seq(|units|, i requires 0 <= i < |units| => c.classes[units[i][0]]))
  }

  /** Only shapeless units may be scheduled together; they all count as one class. */
  function EligibleColouring(c: Colouring, units: seq<seq<nat>>): (cu: Colouring)
    requires Headed(c, units)
    ensures cu.Valid(|units|)
  {
    var h := HeadColouring(c, units);
    Colouring(
      seq(|units|, i requires 0 <= i < |units| => h.supported[i] && h.classes[i] == Shapeless),
      h.float64,
      seq(|units|, _ => Shapeless))
  }

  /** A unit may be scheduled with others exactly if its head is supported and shapeless; only width then tells them apart. */
  lemma EligibleMeans(c: Colouring, units: seq<seq<nat>>, i: nat, j: nat)
    requires Headed(c, units) && i < |units| && j < |units|
    ensures EligibleColouring(c, units).supported[i] <==>
            c.supported[units[i][0]] && c.classes[units[i][0]] == Shapeless
    ensures EligibleColouring(c, units).Compatible(i, j) <==>
            && c.supported[units[i][0]] && c.classes[units[i][0]] == Shapeless
            && c.supported[units[j][0]] && c.classes[units[j][0]] == Shapeless
            && c.float64[units[i][0]] == c.float64[units[j][0]]
  {
  }

  lemma HeadColouringColours(c: Colouring, n: nat, units: seq<seq<nat>>)
    requires c.Valid(n)
    requires forall i :: 0 <= i < |units| ==>
               units[i] != [] && units[i][0] < n && (|units[i]| == 1 || c.OneColour(units[i]))
    ensures ColoursUnits(c, units, HeadColouring(c, units))
  {
    var cu := HeadColouring(c, units);
    forall i, v | 0 <= i < |units| && v in units[i]
      ensures v < n && cu.supported[i] == c.supported[v] && cu.float64[i] == c.float64[v] && cu.classes[i] == c.classes[v]
    {
      if |units[i]| == 1 { assert v == units[i][0]; }
    }
  }

  /** Scheduled runs of eligible units, plus every other cluster as it was, partition the units. */
  lemma RunsAndRestPartitionUnits(
    c: Colouring, units: seq<seq<nat>>, q: Graph, runs: seq<seq<nat>>, rest: seq<seq<nat>>)
    requires |q| == |units|
    requires Headed(c, units)
    requires ValidPartition(q, EligibleColouring(c, units), runs)
    requires forall s :: s in rest ==> |s| == 1 && s[0] < |units| && HeadColouring(c, units).supported[s[0]]
    requires ExactCover(runs + rest, HeadColouring(c, units).SupportedNodes())
    ensures ValidPartition(q, HeadColouring(c, units), runs + rest)
  {
    var cu, ce := HeadColouring(c, units), EligibleColouring(c, units);
    SinglesSayNothing(q, runs, rest);
    forall g | g in runs + rest ensures cu.OneColour(g) {
      if g in runs {
        assert ce.OneColour(g);
        forall v | v in g ensures g[0] < |cu.supported| && v < |cu.supported| && cu.Compatible(g[0], v) {
          assert ce.Compatible(g[0], v);
        }
      }
    }
  }

  method ExpandRuns(units: seq<seq<nat>>, ghost owner: seq<nat>, runs: seq<seq<nat>>) returns (groups: seq<seq<nat>>)
    requires Owns(units, owner)
    requires forall i :: 0 <= i < |units| ==> NoDup(units[i])
    requires forall r :: r in runs ==> NoDup(r) && Below(r, |units|)
    ensures ExpandsAll(units, runs, groups) && AllAscending(groups)
  {
    groups := [];
    for k := 0 to |runs|
      invariant ExpandsAll(units, runs[..k], groups) && AllAscending(groups)
    {
      assert runs[k] in runs;
      ExpandedExpands(units, owner, runs[k]);
      groups := groups + [Expanded(units, runs[k])];
    }
    assert runs[..|runs|] == runs;
  }

  /** The clusters that keep their boundaries, listed with the indices of their units. */
  ghost predicate Kept(c: Colouring, clusters: seq<seq<nat>>, n: nat, kept: seq<seq<nat>>, indices: seq<nat>) {
    && |kept| == |indices|
    && (forall k {:trigger indices[k]} :: 0 <= k < |indices| ==>
          indices[k] < n && indices[k] < |clusters| && kept[k] == clusters[indices[k]])
    && forall i: nat :: i in indices <==> i < n && i < |clusters| && KeepsBoundary(c, clusters[i])
  }

  method Ineligible(c: Colouring, clusters: seq<seq<nat>>) returns (kept: seq<seq<nat>>, ghost indices: seq<nat>)
    requires Headed(c, clusters)
    ensures Kept(c, clusters, |clusters|, kept, indices) && NoDup(indices)
  {
    kept, indices := [], [];
    for i := 0 to |clusters|
      invariant Kept(c, clusters, i, kept, indices) && NoDup(indices)
    {
      if KeepsBoundary(c, clusters[i]) {
        assert i !in indices;
        kept, indices := kept + [clusters[i]], indices + [i];
      }
    }
  }

  ghost function Solo(indices: seq<nat>): (s: seq<seq<nat>>)
    ensures |s| == |indices| && forall k :: 0 <= k < |indices| ==> s[k] == [indices[k]]
  {
    seq(|indices|, k requires 0 <= k < |indices| => [indices[k]])
  }

  lemma SoloStep(groups: seq<seq<nat>>, nodes: set<nat>, i: nat)
    requires ExactCover(groups, nodes) && i !in nodes
    ensures ExactCover(groups + [[i]], nodes + {i})
  {
    CoverOneMore(groups, nodes, i);
  }

  lemma SoloSnoc(groups: seq<seq<nat>>, nodes: set<nat>, indices: seq<nat>)
    requires indices != [] && NoDup(indices) && nodes !! Elements(indices)
    ensures var front, last := indices[..|indices| - 1], indices[|indices| - 1];
            && NoDup(front) && nodes !! Elements(front)
            && last !in nodes + Elements(front)
            && groups + Solo(indices) == groups + Solo(front) + [[last]]
            && nodes + Elements(indices) == nodes + Elements(front) + {last}
  {
    var front, last := indices[..|indices| - 1], indices[|indices| - 1];
    assert Elements(indices) == Elements(front) + {last} && last !in front;
  }

  lemma {:induction false} SoloCover(groups: seq<seq<nat>>, nodes: set<nat>, indices: seq<nat>)
    requires ExactCover(groups, nodes) && NoDup(indices) && nodes !! Elements(indices)
    ensures ExactCover(groups + Solo(indices), nodes + Elements(indices))
  {
    if indices == [] {
      assert groups + Solo(indices) == groups;
      assert nodes + Elements(indices) == nodes;
    } else {
      var front, last := indices[..|indices| - 1], indices[|indices| - 1];
      SoloSnoc(groups, nodes, indices);
      SoloCover(groups, nodes, front);
      SoloStep(groups + Solo(front), nodes + Elements(front), last);
    }
  }

  lemma KeptExpand(c: Colouring, clusters: seq<seq<nat>>, units: seq<seq<nat>>, kept: seq<seq<nat>>, indices: seq<nat>)
    requires clusters <= units && Kept(c, clusters, |clusters|, kept, indices)
    requires forall cl :: cl in clusters ==> NoDup(cl)
    ensures ExpandsAll(units, Solo(indices), kept)
  {
    forall k | 0 <= k < |kept| ensures ExpandsTo(units, Solo(indices)[k], kept[k]) {
      assert indices[k] < |clusters| && kept[k] == clusters[indices[k]] == units[indices[k]];
      assert kept[k] in clusters;
    }
  }

  lemma ExpandsAppend(
    units: seq<seq<nat>>, ug1: seq<seq<nat>>, g1: seq<seq<nat>>, ug2: seq<seq<nat>>, g2: seq<seq<nat>>)
    requires ExpandsAll(units, ug1, g1) && ExpandsAll(units, ug2, g2)
    ensures ExpandsAll(units, ug1 + ug2, g1 + g2)
  {
    forall k | 0 <= k < |g1 + g2| ensures ExpandsTo(units, (ug1 + ug2)[k], (g1 + g2)[k]) {
      if k < |g1| { assert ExpandsTo(units, ug1[k], g1[k]); }
      else { assert ExpandsTo(units, ug2[k - |g1|], g2[k - |g1|]); }
    }
  }

  lemma ExpandedCoarsens(
    units: seq<seq<nat>>, unitGroups: seq<seq<nat>>, groups: seq<seq<nat>>, nodes: set<nat>, clusters: seq<seq<nat>>)
    requires ExpandsAll(units, unitGroups, groups) && ExactCover(unitGroups, nodes)
    requires forall cl :: cl in clusters ==> exists i :: 0 <= i < |units| && units[i] == cl && i in nodes
    ensures Coarsens(groups, clusters)
  {
    forall cl | cl in clusters ensures WithinOne(groups, cl) {
      var i :| 0 <= i < |units| && units[i] == cl && i in nodes;
      assert i in multiset(nodes);
      OccurrenceHasGroup(unitGroups, i);
      var ug :| ug in unitGroups && i in ug;
      var k :| 0 <= k < |unitGroups| && unitGroups[k] == ug;
      assert ExpandsTo(units, unitGroups[k], groups[k]);
      assert groups[k] in groups && Elements(cl) <= Elements(groups[k]);
    }
  }

  /** How a grouping of the clusters was obtained: the unit graph, its schedule and its runs. */
  datatype Coalescing = Coalescing(
    units: seq<seq<nat>>, owner: seq<nat>, singles: seq<seq<nat>>, qsucc: Graph, qpred: Graph,
    order: seq<nat>, starts: seq<nat>, runs: seq<seq<nat>>,
    expanded: seq<seq<nat>>, kept: seq<seq<nat>>, indices: seq<nat>)

  /**
   `how` schedules the contracted clusters greedily by colour, with all shapeless clusters of one
   width as one colour, and turns each run into a group; the other clusters are kept.
   */
  ghost predicate Coalesces(g: Graph, c: Colouring, clusters: seq<seq<nat>>, how: Coalescing) {
    && UnitsOf(c, clusters, how.units, how.owner, how.singles) && |how.owner| == |g|
    && IsQuotient(g, how.owner, how.qsucc) && |how.qsucc| == |how.units| && IsTranspose(how.qsucc, how.qpred)
    && Headed(c, how.units)
    && GreedyOrder(how.qpred, EligibleColouring(c, how.units), how.order)
    && MaximalRuns(EligibleColouring(c, how.units), how.order, how.runs, how.starts)
    && ExpandsAll(how.units, how.runs, how.expanded)
    && Kept(c, clusters, |clusters|, how.kept, how.indices)
  }

  /** The units of a partition: the clusters first, then every unsupported node by itself. */
  ghost predicate UnitsOf(
    c: Colouring, clusters: seq<seq<nat>>, units: seq<seq<nat>>, owner: seq<nat>, singles: seq<seq<nat>>)
  {
    && c.Valid(|owner|)
    && units == clusters + singles
    && ExactCover(units, Range(|owner|))
    && Owns(units, owner)
    && (forall cl {:trigger cl in clusters} :: cl in clusters ==> cl != [] && StrictlyAscending(cl) && c.OneColour(cl))
    && forall s {:trigger s in singles} :: s in singles ==> |s| == 1 && s[0] < |owner| && !c.supported[s[0]]
  }

  lemma UnitFacts(
    c: Colouring, clusters: seq<seq<nat>>, units: seq<seq<nat>>, owner: seq<nat>, singles: seq<seq<nat>>)
    requires UnitsOf(c, clusters, units, owner, singles)
    ensures clusters <= units && Headed(c, units) && Headed(c, clusters)
    ensures forall i :: 0 <= i < |units| ==> NoDup(units[i])
    ensures ColoursUnits(c, units, HeadColouring(c, units))
    ensures forall i :: 0 <= i < |units| && !HeadColouring(c, units).supported[i] ==> |units[i]| == 1
    ensures forall i :: 0 <= i < |units| ==> (HeadColouring(c, units).supported[i] <==> i < |clusters|)
  {
    forall i | 0 <= i < |units|
      ensures units[i] != [] && units[i][0] < |owner| && NoDup(units[i])
      ensures |units[i]| == 1 || c.OneColour(units[i])
      ensures c.supported[units[i][0]] <==> i < |clusters|
      ensures c.supported[units[i][0]] || |units[i]| == 1
    {
      if i < |clusters| {
        assert units[i] == clusters[i] && clusters[i] in clusters;
        assert units[i][0] in units[i];
      } else {
        assert units[i] == singles[i - |clusters|] && units[i] in singles;
      }
    }
    HeadColouringColours(c, |owner|, units);
  }

  /** The eligible runs and the kept clusters together cover every supported unit once. */
  lemma RunsAndKeptCover(
    c: Colouring, clusters: seq<seq<nat>>, units: seq<seq<nat>>, owner: seq<nat>, singles: seq<seq<nat>>,
    runs: seq<seq<nat>>, kept: seq<seq<nat>>, indices: seq<nat>)
    requires UnitsOf(c, clusters, units, owner, singles)
    requires Headed(c, units) && ExactCover(runs, EligibleColouring(c, units).SupportedNodes())
    requires Kept(c, clusters, |clusters|, kept, indices) && NoDup(indices)
    ensures ExactCover(runs + Solo(indices), HeadColouring(c, units).SupportedNodes())
  {
    UnitFacts(c, clusters, units, owner, singles);
    var a, b := EligibleColouring(c, units).SupportedNodes(), HeadColouring(c, units).SupportedNodes();
    forall i: nat
      ensures i in Elements(indices) ==> i !in a
      ensures i in b <==> i in a || i in Elements(indices)
    {
      if i < |clusters| { assert units[i] == clusters[i]; }
    }
    SoloCover(runs, a, indices);
    assert b == a + Elements(indices);
  }

  /** Coalescing shapeless clusters along a schedule of the units gives another valid partition. */
  lemma CoalescedIsPartition(
    g: Graph, c: Colouring, clusters: seq<seq<nat>>, units: seq<seq<nat>>, owner: seq<nat>, singles: seq<seq<nat>>,
    q: Graph, runs: seq<seq<nat>>, expanded: seq<seq<nat>>, kept: seq<seq<nat>>, indices: seq<nat>)
    requires UnitsOf(c, clusters, units, owner, singles) && |owner| == |g|
    requires IsQuotient(g, owner, q) && |q| == |units|
    requires Headed(c, units) && ValidPartition(q, EligibleColouring(c, units), runs)
    requires ExpandsAll(units, runs, expanded)
    requires Kept(c, clusters, |clusters|, kept, indices) && NoDup(indices)
    ensures ValidPartition(g, c, expanded + kept)
    ensures Coarsens(expanded + kept, clusters)
  {
    UnitFacts(c, clusters, units, owner, singles);
    var cu := HeadColouring(c, units);
    RunsAndKeptCover(c, clusters, units, owner, singles, runs, kept, indices);
    forall s | s in Solo(indices) ensures |s| == 1 && s[0] < |units| && cu.supported[s[0]] {
      var k :| 0 <= k < |indices| && s == [indices[k]];
      assert indices[k] < |clusters|;
    }
    RunsAndRestPartitionUnits(c, units, q, runs, Solo(indices));
    KeptExpand(c, clusters, units, kept, indices);
    ExpandsAppend(units, runs, expanded, Solo(indices), kept);
    ExpansionIsPartition(g, c, units, owner, q, cu, runs + Solo(indices), expanded + kept);
    forall cl | cl in clusters ensures exists i :: 0 <= i < |units| && units[i] == cl && i in cu.SupportedNodes() {
      var i :| 0 <= i < |clusters| && clusters[i] == cl;
      assert units[i] == cl && cu.supported[i];
    }
    ExpandedCoarsens(units, runs + Solo(indices), expanded + kept, cu.SupportedNodes(), clusters);
  }

  lemma PartitionOfRuns(q: Graph, ce: Colouring, runs: seq<seq<nat>>)
    requires ValidPartition(q, ce, runs)
    ensures forall r :: r in runs ==> NoDup(r) && Below(r, |q|)
  {
    forall r | r in runs ensures NoDup(r) && Below(r, |q|) {
      forall v ensures multiset(r)[v] <= 1 { GroupCount(runs, r, v); assert multiset(ce.SupportedNodes())[v] <= 1; }
      CountsMakeNoDup(r);
      assert ce.OneColour(r);
      assert forall i :: 0 <= i < |r| ==> r[i] in r;
    }
  }

  lemma {:induction false} GroupCount(groups: seq<seq<nat>>, g: seq<nat>, v: nat)
    requires g in groups
    ensures multiset(g)[v] <= Occurrences(groups)[v]
  {
    var front, last := groups[..|groups| - 1], groups[|groups| - 1];
    if g != last {
      assert g in front;
      GroupCount(front, g, v);
    }
  }

  /** Merge independent shapeless clusters that a schedule of the units brings together. */
  method Coalesce(
    g: Graph, c: Colouring, clusters: seq<seq<nat>>, units: seq<seq<nat>>, owner: seq<nat>,
    ghost singles: seq<seq<nat>>, qsucc: Graph, qpred: Graph)
    returns (groups: seq<seq<nat>>, ghost how: Coalescing)
    requires UnitsOf(c, clusters, units, owner, singles) && |owner| == |g|
    requires IsQuotient(g, owner, qsucc) && |qsucc| == |units| && IsTranspose(qsucc, qpred) && Acyclic(qsucc)
    ensures Coalesces(g, c, clusters, how) && groups == how.expanded + how.kept
    ensures ValidPartition(g, c, groups) && Coarsens(groups, clusters)
    ensures KeepsBoundaries(c, groups, clusters) && AllAscending(groups)
    ensures forall cl :: cl in clusters && cl != [] && cl[0] < |c.classes| && c.classes[cl[0]] != Shapeless ==> cl in groups
  {
    UnitFacts(c, clusters, units, owner, singles);
    var runs, order, starts := TopologicalColourRuns(EligibleColouring(c, units), qsucc, qpred);
    PartitionOfRuns(qsucc, EligibleColouring(c, units), runs);
    var expanded := ExpandRuns(units, owner, runs);
    var kept, indices := Ineligible(c, clusters);
    CoalescedIsPartition(g, c, clusters, units, owner, singles, qsucc, runs, expanded, kept, indices);
    groups := expanded + kept;
    how := Coalescing(units, owner, singles, qsucc, qpred, order, starts, runs, expanded, kept, indices);
    KeptFacts(c, clusters, kept, indices);
  }

  lemma KeptFacts(c: Colouring, clusters: seq<seq<nat>>, kept: seq<seq<nat>>, indices: seq<nat>)
    requires Kept(c, clusters, |clusters|, kept, indices)
    ensures KeepsBoundaries(c, kept, clusters)
    ensures forall k :: k in kept ==> k in clusters
  {
    forall cl | cl in clusters && KeepsBoundary(c, cl) ensures cl in kept {
      var i :| 0 <= i < |clusters| && clusters[i] == cl;
      assert i in indices;
      var k :| 0 <= k < |indices| && indices[k] == i;
      assert kept[k] == cl;
    }
    forall cl | cl in kept ensures cl in clusters {
      var k :| 0 <= k < |kept| && kept[k] == cl;
      assert indices[k] < |clusters|;
    }
  }

  lemma Resorted(g: Graph, c: Colouring, groups: seq<seq<nat>>, clusters: seq<seq<nat>>)
    requires ValidPartition(g, c, groups)
    ensures ValidPartition(g, c, SortByHead(groups))
    ensures Coarsens(groups, clusters) ==> Coarsens(SortByHead(groups), clusters)
    ensures KeepsBoundaries(c, groups, clusters) ==> KeepsBoundaries(c, SortByHead(groups), clusters)
    ensures AllAscending(groups) ==> AllAscending(SortByHead(groups))
  {
    SortOccurrences(groups);
    SameGroupsSameQuotient(g, groups, SortByHead(groups));
    if Coarsens(groups, clusters) {
      forall cl | cl in clusters ensures WithinOne(SortByHead(groups), cl) {
        assert WithinOne(groups, cl);
        var b :| b in groups && Elements(cl) <= Elements(b);
        assert b in SortByHead(groups);
      }
    }
  }

  /** Groups whose listing follows every edge inside the group. */
  ghost predicate ListedAlongEdges(g: Graph, groups: seq<seq<nat>>) {
    forall group, i, j :: group in groups && 0 <= i < |group| && 0 <= j < |group| && Edge(g, group[i], group[j]) ==> i < j
  }

  lemma AscendingFollowsOrderedEdges(g: Graph, groups: seq<seq<nat>>)
    requires Ordered(g) && AllAscending(groups)
    ensures ListedAlongEdges(g, groups)
  {
    forall group, i, j | group in groups && 0 <= i < |group| && 0 <= j < |group| && Edge(g, group[i], group[j])
      ensures i < j
    {
      assert group[i] < group[j];
    }
  }

  lemma OrderedIsAcyclic(g: Graph)
    requires Ordered(g)
    ensures Acyclic(g)
  {
    assert IsRank(g, Identity(|g|));
  }

  lemma IntervalsFollowEdges(succ: Graph, pred: Graph, order: seq<nat>, groups: seq<seq<nat>>, starts: seq<nat>)
    requires IsTranspose(succ, pred) && TopologicalPrefix(pred, order) && Intervals(order, groups, starts)
    ensures ListedAlongEdges(succ, groups)
  {
    forall group, i, j | group in groups && 0 <= i < |group| && 0 <= j < |group| && Edge(succ, group[i], group[j])
      ensures i < j
    {
      var k :| 0 <= k < |groups| && groups[k] == group;
      assert Interval(order, groups[k], starts[k]);
      TransposeEdge(succ, pred, group[i], group[j]);
      var p, q := starts[k] + i, starts[k] + j;
      assert order[p] == group[i] && order[q] == group[j];
      assert order[p] in order[..q];
    }
  }

  /**
   What the partitioner computes, on every graph. The clusters are the greedy convex ones; if they
   contract to a graph without cycles the groups are those clusters or, when that gives fewer
   groups, their coalescing; otherwise the groups are the runs of the greedy colour schedule.
   Without self-loops the groups are valid exactly when the graph or its contraction has no cycle.
   */
  ghost predicate EdgePartition(
    c: Colouring, succ: Graph, pred: Graph, groups: seq<seq<nat>>, clusters: seq<seq<nat>>, how: Coalescing)
  {
    && c.Valid(|succ|)
    && (Acyclic(succ) ==> GreedyConvex(c, succ, clusters))
    && (NoLoops(succ) ==> (ValidPartition(succ, c, groups) <==> Acyclic(succ) || AcyclicQuotient(succ, clusters)))
    && (AcyclicQuotient(succ, clusters) ==>
          && ValidPartition(succ, c, groups)
          && Coarsens(groups, clusters)
          && KeepsBoundaries(c, groups, clusters)
          && Coalesces(succ, c, clusters, how)
          && groups == SortByHead(if |how.expanded + how.kept| < |clusters| then how.expanded + how.kept else clusters))
    && (!AcyclicQuotient(succ, clusters) ==>
          exists order, starts :: GreedyOrder(pred, c, order) && MaximalRuns(c, order, groups, starts))
  }

  /** Partition a graph for fusion; valid for every graph without cycles. */
  method PartitionEdges(c: Colouring, succ: Graph, pred: Graph)
    returns (groups: seq<seq<nat>>, ghost clusters: seq<seq<nat>>, ghost how: Coalescing)
    requires IsTranspose(succ, pred) && c.Valid(|succ|)
    ensures Acyclic(succ) ==> ValidPartition(succ, c, groups)
    ensures EdgePartition(c, succ, pred, groups, clusters, how)
    ensures AcyclicQuotient(succ, clusters) ==> forall cl ::
              cl in clusters && cl != [] && cl[0] < |c.classes| && c.classes[cl[0]] != Shapeless ==> cl in groups
    ensures Ordered(succ) ==> ListedAlongEdges(succ, groups)
  {
    var merged, rep := MergedClusters(c, succ, pred);
    clusters := merged;
    ghost var singles;
    var units;
    units, singles := AddSingles(merged, c.supported, c.SupportedNodes());
    var owner := OwnersOf(units, |succ|);
    var qsucc, qpred := QuotientLists(succ, owner, |units|);
    ClassesAreUnits(c, rep, merged, units, owner, singles);
    QuotientScheduleIsGroupSchedule(succ, units, owner, qsucc);
    SinglesSayNothing(succ, merged, singles);
    var order := StackOrder(qsucc, qpred);
    if |order| != |units| {
      ghost var emitted, starts;
      groups, emitted, starts := TopologicalColourRuns(c, succ, pred);
      how := Coalescing(units, owner, singles, qsucc, qpred, [], [], [], [], [], []);
      IntervalsFollowEdges(succ, pred, emitted, groups, starts);
      return;
    }
    var coalesced;
    coalesced, how := Coalesce(succ, c, merged, units, owner, singles, qsucc, qpred);
    groups := if |coalesced| < |merged| then SortByHead(coalesced) else SortByHead(merged);
    CoalescedResult(c, succ, pred, rep, merged, coalesced, how);
    if Ordered(succ) { AscendingFollowsOrderedEdges(succ, groups); }
  }

  lemma CoalescedResult(
    c: Colouring, succ: Graph, pred: Graph, rep: seq<nat>, merged: seq<seq<nat>>, coalesced: seq<seq<nat>>,
    how: Coalescing)
    requires c.Valid(|succ|) && ColouredClasses(c, rep) && ListsClasses(c, rep, merged)
    requires AcyclicQuotient(succ, merged) && (Acyclic(succ) ==> GreedyConvex(c, succ, merged))
    requires Coalesces(succ, c, merged, how) && coalesced == how.expanded + how.kept
    requires ValidPartition(succ, c, coalesced) && Coarsens(coalesced, merged)
    requires KeepsBoundaries(c, coalesced, merged) && AllAscending(coalesced)
    ensures var groups := SortByHead(if |coalesced| < |merged| then coalesced else merged);
            EdgePartition(c, succ, pred, groups, merged, how) && AllAscending(groups)
  {
    ClustersArePartition(c, succ, rep, merged);
    forall cl | cl in merged ensures WithinOne(merged, cl) { assert Elements(cl) <= Elements(cl); }
    var chosen := if |coalesced| < |merged| then coalesced else merged;
    assert ValidPartition(succ, c, chosen) && Coarsens(chosen, merged) && KeepsBoundaries(c, chosen, merged);
    Resorted(succ, c, chosen, merged);
  }

  lemma ClassesAreUnits(
    c: Colouring, rep: seq<nat>, clusters: seq<seq<nat>>, units: seq<seq<nat>>, owner: seq<nat>, singles: seq<seq<nat>>)
    requires c.Valid(|owner|) && ColouredClasses(c, rep) && ListsClasses(c, rep, clusters)
    requires units == clusters + singles && ExactCover(units, Range(|owner|)) && Owns(units, owner)
    requires forall s :: s in singles ==> |s| == 1 && s[0] < |owner| && !c.supported[s[0]]
    ensures UnitsOf(c, clusters, units, owner, singles)
  {
    forall cl | cl in clusters ensures c.OneColour(cl) { ClassColour(c, rep, clusters, cl); }
  }

  lemma ClassColour(c: Colouring, rep: seq<nat>, clusters: seq<seq<nat>>, cl: seq<nat>)
    requires ColouredClasses(c, rep) && ListsClasses(c, rep, clusters) && cl in clusters
    ensures c.OneColour(cl)
  {
    assert cl != [] && cl[0] in cl;
    forall v | v in cl ensures cl[0] < |c.supported| && v < |c.supported| && c.Compatible(cl[0], v) {
      assert v in Elements(cl) && cl[0] in Elements(cl);
      assert rep[v] == rep[cl[0]];
    }
  }

  lemma ClustersArePartition(c: Colouring, succ: Graph, rep: seq<nat>, clusters: seq<seq<nat>>)
    requires c.Valid(|succ|) && ColouredClasses(c, rep) && ListsClasses(c, rep, clusters)
    requires AcyclicQuotient(succ, clusters)
    ensures ValidPartition(succ, c, clusters)
    ensures AllAscending(clusters)
  {
    forall cl | cl in clusters ensures c.OneColour(cl) { ClassColour(c, rep, clusters, cl); }
  }
}
