/** The colour-run scheduler: a topological order that stays with a ready colour while it can. */
module ColourRuns {
  import opened Graphs
  import opened Kahn
  import opened Colours

  ghost predicate SmallestOf(s: set<nat>, v: nat) {
    v in s && forall w :: w in s ==> v <= w
  }

  /** Ready nodes of the colour emitted last. */
  ghost function Continuing(pred: Graph, c: Colouring, prefix: seq<nat>): (ready: set<nat>)
    requires c.Valid(|pred|) && Below(prefix, |pred|)
  {
    if prefix == [] then {}
    else set v | v in Ready(pred, prefix) && c.Kind(v) == c.Kind(prefix[|prefix| - 1])
  }

  /** The scheduling rule: continue the running colour, else take the smallest ready node. */
  ghost predicate GreedyStep(pred: Graph, c: Colouring, prefix: seq<nat>, v: nat)
    requires c.Valid(|pred|) && Below(prefix, |pred|)
  {
    var same := Continuing(pred, c, prefix);
    SmallestOf(if same != {} then same else Ready(pred, prefix), v)
  }

  ghost predicate GreedyOrder(pred: Graph, c: Colouring, order: seq<nat>) {
    && c.Valid(|pred|)
    && Below(order, |pred|)
    && forall i :: 0 <= i < |order| ==> GreedyStep(pred, c, order[..i], order[i])
  }

  ghost predicate Interval(order: seq<nat>, group: seq<nat>, start: nat) {
    group != [] && start + |group| <= |order| && group == order[start..start + |group|]
  }

  /** The groups are disjoint intervals of the order, from left to right. */
  ghost predicate Intervals(order: seq<nat>, groups: seq<seq<nat>>, starts: seq<nat>) {
    && |starts| == |groups|
    && (forall i :: 0 <= i < |groups| ==> Interval(order, groups[i], starts[i]))
    && forall i, j :: 0 <= i < j < |groups| ==> starts[i] + |groups[i]| <= starts[j]
  }

  ghost predicate Located(groups: seq<seq<nat>>, starts: seq<nat>, k: nat) {
    |starts| == |groups| && exists i :: 0 <= i < |groups| && starts[i] <= k < starts[i] + |groups[i]|
  }

  ghost predicate AllLocated(c: Colouring, order: seq<nat>, groups: seq<seq<nat>>, starts: seq<nat>) {
    forall k :: 0 <= k < |order| && order[k] in c.SupportedNodes() ==> Located(groups, starts, k)
  }

  /** Neighbouring intervals differ in colour, so none could have been longer. */
  ghost predicate Maximal(c: Colouring, groups: seq<seq<nat>>, starts: seq<nat>) {
    && |starts| == |groups|
    && (forall i :: 0 <= i < |groups| ==> groups[i] != [])
    && forall i :: 0 < i < |groups| && starts[i - 1] + |groups[i - 1]| == starts[i] ==>
         !c.OneColour([groups[i - 1][0], groups[i][0]])
  }

  ghost predicate OneColourEach(c: Colouring, groups: seq<seq<nat>>) {
    forall i :: 0 <= i < |groups| ==> c.OneColour(groups[i])
  }

  /** The groups are the maximal one-colour intervals of supported nodes, in order. */
  ghost predicate MaximalRuns(c: Colouring, order: seq<nat>, groups: seq<seq<nat>>, starts: seq<nat>) {
    && Intervals(order, groups, starts)
    && OneColourEach(c, groups)
    && AllLocated(c, order, groups, starts)
    && Maximal(c, groups, starts)
  }

  // ---- What the schedule and its runs are -------------------------------------------------------

  /** All predecessors of `v` are among the first `i` emitted nodes, and `v` is not. */
  ghost predicate ReadyAt(pred: Graph, order: seq<nat>, i: nat, v: nat)
    requires i <= |order|
  {
    v < |pred| && v !in order[..i] && forall u :: u in pred[v] ==> u in order[..i]
  }

  /** Two nodes queue together: both unsupported, or both supported with one width and class. */
  ghost predicate SameQueue(c: Colouring, u: nat, v: nat)
    requires u < |c.supported| == |c.float64| == |c.classes| && v < |c.supported|
  {
    if c.supported[u] && c.supported[v] then c.float64[u] == c.float64[v] && c.classes[u] == c.classes[v]
    else !c.supported[u] && !c.supported[v]
  }

  lemma SameQueueIsKind(c: Colouring, u: nat, v: nat)
    requires u < |c.supported| == |c.float64| == |c.classes| && v < |c.supported|
    ensures SameQueue(c, u, v) <==> c.Kind(u) == c.Kind(v)
  {
    if c.supported[u] { c.SameKind(u, v); }
  }

  lemma {:induction false} ReadyIs(pred: Graph, order: seq<nat>, i: nat, v: nat)
    requires i <= |order|
    ensures v in Ready(pred, order[..i]) <==> ReadyAt(pred, order, i, v)
  {
  }

  lemma {:induction false} ContinuingIs(pred: Graph, c: Colouring, order: seq<nat>, i: nat, v: nat)
    requires c.Valid(|pred|) && Below(order, |pred|) && 0 < i <= |order|
    ensures v in Continuing(pred, c, order[..i]) <==> ReadyAt(pred, order, i, v) && SameQueue(c, order[i - 1], v)
  {
    ReadyIs(pred, order, i, v);
    assert order[..i][|order[..i]| - 1] == order[i - 1];
    if v < |pred| { SameQueueIsKind(c, order[i - 1], v); }
  }

  /** While the queue just served has a ready node, its least one follows. */
  lemma {:induction false} GreedyContinues(pred: Graph, c: Colouring, order: seq<nat>, i: nat, v: nat)
    requires GreedyOrder(pred, c, order) && 0 < i < |order|
    requires ReadyAt(pred, order, i, v) && SameQueue(c, order[i - 1], v)
    ensures ReadyAt(pred, order, i, order[i]) && SameQueue(c, order[i - 1], order[i]) && order[i] <= v
  {
    assert GreedyStep(pred, c, order[..i], order[i]);
    ContinuingIs(pred, c, order, i, v);
    ContinuingIs(pred, c, order, i, order[i]);
  }

  /** Otherwise, and at the start, the least of all ready nodes follows. */
  lemma {:induction false} GreedyChanges(pred: Graph, c: Colouring, order: seq<nat>, i: nat, v: nat)
    requires GreedyOrder(pred, c, order) && i < |order| && ReadyAt(pred, order, i, v)
    requires i > 0 ==> !SameQueue(c, order[i - 1], order[i])
    ensures ReadyAt(pred, order, i, order[i]) && order[i] <= v
  {
    assert GreedyStep(pred, c, order[..i], order[i]);
    ReadyIs(pred, order, i, v);
    ReadyIs(pred, order, i, order[i]);
    if i > 0 { ContinuingIs(pred, c, order, i, order[i]); }
  }

  /** Neighbours of one colour in the order share a run. */
  lemma {:induction false} NeighboursShareRun(c: Colouring, order: seq<nat>, groups: seq<seq<nat>>, starts: seq<nat>, p: nat)
    returns (i: nat)
    requires MaximalRuns(c, order, groups, starts) && p + 1 < |order|
    requires |c.supported| == |c.float64| == |c.classes| && Below(order, |c.supported|)
    requires c.supported[order[p]] && c.supported[order[p + 1]] && SameQueue(c, order[p], order[p + 1])
    ensures i < |groups| && order[p] in groups[i] && order[p + 1] in groups[i]
  {
    assert Located(groups, starts, p) && Located(groups, starts, p + 1);
    i :| 0 <= i < |groups| && starts[i] <= p < starts[i] + |groups[i]|;
    var j :| 0 <= j < |groups| && starts[j] <= p + 1 < starts[j] + |groups[j]|;
    RunMember(order, groups, starts, i, p);
    RunMember(order, groups, starts, j, p + 1);
    if i != j {
      AdjacentRuns(order, groups, starts, i, j, p);
      HeadColour(c, groups, i, order[p]);
      HeadColour(c, groups, j, order[p + 1]);
      SameQueueGroups(c, groups[i][0], groups[j][0]);
    }
  }

  lemma {:induction false} RunMember(order: seq<nat>, groups: seq<seq<nat>>, starts: seq<nat>, i: nat, p: nat)
    requires Intervals(order, groups, starts) && i < |groups| && starts[i] <= p < starts[i] + |groups[i]|
    ensures p < |order| && order[p] in groups[i]
  {
    assert Interval(order, groups[i], starts[i]);
    assert groups[i][p - starts[i]] == order[p];
  }

  lemma {:induction false} AdjacentRuns(order: seq<nat>, groups: seq<seq<nat>>, starts: seq<nat>, i: nat, j: nat, p: nat)
    requires Intervals(order, groups, starts) && i < |groups| && j < |groups| && i != j
    requires starts[i] <= p < starts[i] + |groups[i]| && starts[j] <= p + 1 < starts[j] + |groups[j]|
    ensures j == i + 1 && starts[i] + |groups[i]| == starts[j]
  {
    if j > i + 1 { RunBetween(order, groups, starts, i, i + 1, j); }
  }

  lemma {:induction false} RunBetween(order: seq<nat>, groups: seq<seq<nat>>, starts: seq<nat>, i: nat, m: nat, j: nat)
    requires Intervals(order, groups, starts) && i < m < j < |groups|
    ensures starts[i] + |groups[i]| < starts[j]
  {
    assert Interval(order, groups[m], starts[m]);
  }

  lemma {:induction false} HeadColour(c: Colouring, groups: seq<seq<nat>>, i: nat, v: nat)
    requires OneColourEach(c, groups) && i < |groups| && v in groups[i]
    requires |c.supported| == |c.float64| == |c.classes|
    ensures groups[i][0] < |c.supported| && v < |c.supported|
    ensures c.supported[groups[i][0]] && c.supported[v] && SameQueue(c, groups[i][0], v)
  {
    assert c.OneColour(groups[i]) && c.Compatible(groups[i][0], v);
  }

  lemma {:induction false} SameQueueGroups(c: Colouring, a: nat, b: nat)
    requires |c.supported| == |c.float64| == |c.classes| && a < |c.supported| && b < |c.supported|
    requires c.supported[a] && c.supported[b] && SameQueue(c, a, b)
    ensures c.OneColour([a, b])
  {
  }

  // ---- What the runs are good for ---------------------------------------------------------------

  ghost function IntervalRank(groups: seq<seq<nat>>, starts: seq<nat>, k: nat): (n: nat)
    requires |starts| == |groups|
  {
    if i :| 0 <= i < |groups| && starts[i] <= k < starts[i] + |groups[i]| then starts[i] else k
  }

  lemma GroupPosition(order: seq<nat>, groups: seq<seq<nat>>, starts: seq<nat>, i: nat, v: nat)
    requires NoDup(order) && Intervals(order, groups, starts) && i < |groups|
    ensures v in groups[i] <==> v in order && starts[i] <= PositionIn(order, v) < starts[i] + |groups[i]|
  {
    assert Interval(order, groups[i], starts[i]);
    if v in groups[i] {
      var k :| 0 <= k < |groups[i]| && groups[i][k] == v;
      assert order[starts[i] + k] == v;
    }
    if v in order && starts[i] <= PositionIn(order, v) < starts[i] + |groups[i]| {
      assert groups[i][PositionIn(order, v) - starts[i]] == v;
    }
  }

  /** Contracting disjoint intervals of a topological order leaves a schedulable graph. */
  lemma IntervalsHaveAcyclicQuotient(
    succ: Graph, pred: Graph, order: seq<nat>, groups: seq<seq<nat>>, starts: seq<nat>)
    requires IsTranspose(succ, pred) && TopologicalOrder(pred, order)
    requires Intervals(order, groups, starts)
    ensures AcyclicQuotient(succ, groups)
  {
    OrderRanks(succ, pred, order);
    forall v: nat | v < |succ| ensures v in order { assert v in Elements(order); }
    var rank: seq<nat> := seq(|succ|, (v: int) requires 0 <= v < |succ| =>
      IntervalRank(groups, starts, PositionIn(order, v)));
    forall i: nat, v | i < |groups| && v in groups[i] ensures v in order && rank[v] == starts[i] {
      GroupPosition(order, groups, starts, i, v);
    }
    forall u: nat, v: nat | Edge(succ, u, v) ensures Together(groups, u, v) || rank[u] < rank[v] {
      var k := PositionIn(order, v);
      if i :| 0 <= i < |groups| && starts[i] <= k < starts[i] + |groups[i]| {
        GroupPosition(order, groups, starts, i, v);
        GroupPosition(order, groups, starts, i, u);
        assert u in groups[i] ==> Together(groups, u, v);
      }
    }
    assert QuotientRank(succ, groups, rank);
  }

  lemma IntervalsAreDisjoint(c: Colouring, order: seq<nat>, groups: seq<seq<nat>>, starts: seq<nat>)
    requires NoDup(order) && MaximalRuns(c, order, groups, starts)
    requires Below(order, |c.supported|)
    ensures [] !in groups
    ensures forall group :: group in groups ==> NoDup(group)
    ensures ExactCover(groups, Elements(order) * c.SupportedNodes())
  {
    forall i: nat, v | i < |groups| ensures
      v in groups[i] <==> v in order && starts[i] <= PositionIn(order, v) < starts[i] + |groups[i]|
    {
      GroupPosition(order, groups, starts, i, v);
    }
    forall group | group in groups ensures group != [] && NoDup(group) {
      var i :| 0 <= i < |groups| && groups[i] == group;
      assert Interval(order, groups[i], starts[i]);
    }
    forall i, j, x | 0 <= i < j < |groups| && x in groups[i] ensures x !in groups[j] {
    }
    var nodes := Elements(order) * c.SupportedNodes();
    forall v ensures v in nodes <==> exists group :: group in groups && v in group {
      IntervalsHoldSupported(c, order, groups, starts, v);
    }
    DisjointGroupsCover(groups, nodes);
  }

  lemma IntervalsHoldSupported(c: Colouring, order: seq<nat>, groups: seq<seq<nat>>, starts: seq<nat>, v: nat)
    requires NoDup(order) && MaximalRuns(c, order, groups, starts)
    ensures v in Elements(order) * c.SupportedNodes() <==> exists group :: group in groups && v in group
  {
    if v in Elements(order) * c.SupportedNodes() {
      var k := PositionIn(order, v);
      assert Located(groups, starts, k);
      var i: nat :| i < |groups| && starts[i] <= k < starts[i] + |groups[i]|;
      GroupPosition(order, groups, starts, i, v);
      assert groups[i] in groups && v in groups[i];
    }
    if group :| group in groups && v in group {
      var i: nat :| i < |groups| && groups[i] == group;
      GroupPosition(order, groups, starts, i, v);
      assert c.OneColour(groups[i]);
    }
  }

  /** The whole promise, for a graph without cycles. */
  lemma RunsArePartition(
    succ: Graph, pred: Graph, c: Colouring, order: seq<nat>, groups: seq<seq<nat>>, starts: seq<nat>)
    requires IsTranspose(succ, pred) && c.Valid(|succ|) && TopologicalOrder(pred, order)
    requires MaximalRuns(c, order, groups, starts)
    ensures ValidPartition(succ, c, groups)
  {
    IntervalsHaveAcyclicQuotient(succ, pred, order, groups, starts);
    IntervalsAreDisjoint(c, order, groups, starts);
    assert Elements(order) * c.SupportedNodes() == c.SupportedNodes();
  }

  /** A schedule of the grouped graph also frees every node the runs left out. */
  lemma {:induction false} LeftOutNodeIsReady(
    succ: Graph, pred: Graph, c: Colouring, order: seq<nat>, groups: seq<seq<nat>>, rank: seq<nat>, v: nat)
    requires IsTranspose(succ, pred) && ExactCover(groups, c.SupportedNodes())
    requires c.Valid(|succ|) && QuotientRank(succ, groups, rank)
    requires forall w: nat :: w < |succ| && c.supported[w] ==> w in order
    requires NoLoops(succ) && v < |succ| && v !in order
    ensures Ready(pred, order) != {}
    decreases rank[v]
  {
    if u :| u in pred[v] && u !in order {
      TransposeEdge(succ, pred, u, v);
      assert Edge(succ, u, v);
      OccurrenceHasGroup(groups, v);
      assert v !in multiset(c.SupportedNodes());
      assert !Together(groups, u, v);
      LeftOutNodeIsReady(succ, pred, c, order, groups, rank, u);
    } else {
      assert v in Ready(pred, order);
    }
  }

  /** On a graph with a cycle the runs are never a valid partition. */
  lemma RunsOfACycleAreNotAPartition(
    succ: Graph, pred: Graph, c: Colouring, order: seq<nat>, groups: seq<seq<nat>>, starts: seq<nat>)
    requires IsTranspose(succ, pred) && NoLoops(succ) && c.Valid(|succ|)
    requires TopologicalPrefix(pred, order) && Ready(pred, order) == {} && MaximalRuns(c, order, groups, starts)
    requires ValidPartition(succ, c, groups)
    ensures Acyclic(succ)
  {
    var rank :| QuotientRank(succ, groups, rank);
    forall v: nat | v < |succ| && c.supported[v] ensures v in order {
      assert v in multiset(c.SupportedNodes());
      OccurrenceHasGroup(groups, v);
      var g :| g in groups && v in g;
      var i :| 0 <= i < |groups| && groups[i] == g;
      GroupPosition(order, groups, starts, i, v);
    }
    forall v: nat | v < |succ| ensures v in order {
      if v !in order { LeftOutNodeIsReady(succ, pred, c, order, groups, rank, v); }
    }
    assert Elements(order) == Range(|pred|);
    StuckMeansDoneOrCyclic(succ, pred, order);
  }

  // ---- Growing the runs -------------------------------------------------------------------------

  lemma LastGroupEndsTheOrder(c: Colouring, order: seq<nat>, groups: seq<seq<nat>>, starts: seq<nat>)
    requires MaximalRuns(c, order, groups, starts) && order != []
    requires order[|order| - 1] in c.SupportedNodes()
    ensures |groups| > 0
    ensures order[|order| - 1] in groups[|groups| - 1]
    ensures starts[|groups| - 1] + |groups[|groups| - 1]| == |order|
  {
    var n := |order|;
    assert Located(groups, starts, n - 1);
    var i :| 0 <= i < |groups| && starts[i] <= n - 1 < starts[i] + |groups[i]|;
    assert Interval(order, groups[i], starts[i]);
    assert Interval(order, groups[|groups| - 1], starts[|groups| - 1]);
    assert groups[i][n - 1 - starts[i]] == order[n - 1];
  }

  lemma LongerOrder(order: seq<nat>, groups: seq<seq<nat>>, starts: seq<nat>, node: nat)
    requires Intervals(order, groups, starts)
    ensures Intervals(order + [node], groups, starts)
  {
    forall i | 0 <= i < |groups| ensures Interval(order + [node], groups[i], starts[i]) {
      assert Interval(order, groups[i], starts[i]);
    }
  }

  lemma LocatedInLonger(
    c: Colouring, order: seq<nat>, node: nat, groups: seq<seq<nat>>, starts: seq<nat>,
    runs: seq<seq<nat>>, froms: seq<nat>)
    requires AllLocated(c, order, groups, starts)
    requires 0 < |runs| == |froms| && |groups| <= |runs| && |groups| == |starts|
    requires forall i :: 0 <= i < |groups| ==> froms[i] == starts[i] && |groups[i]| <= |runs[i]|
    requires froms[|runs| - 1] <= |order| < froms[|runs| - 1] + |runs[|runs| - 1]|
    ensures AllLocated(c, order + [node], runs, froms)
  {
    forall k | 0 <= k < |order + [node]| && (order + [node])[k] in c.SupportedNodes()
      ensures Located(runs, froms, k)
    {
      if k < |order| {
        assert Located(groups, starts, k);
        var i :| 0 <= i < |groups| && starts[i] <= k < starts[i] + |groups[i]|;
        assert froms[i] <= k < froms[i] + |runs[i]|;
      } else {
        assert froms[|runs| - 1] <= k < froms[|runs| - 1] + |runs[|runs| - 1]|;
      }
    }
  }

  lemma ExtendIntervals(order: seq<nat>, groups: seq<seq<nat>>, starts: seq<nat>, node: nat)
    requires Intervals(order, groups, starts) && groups != []
    requires starts[|groups| - 1] + |groups[|groups| - 1]| == |order|
    ensures Intervals(order + [node], groups[|groups| - 1 := groups[|groups| - 1] + [node]], starts)
  {
    LongerOrder(order, groups, starts, node);
    var m := |groups| - 1;
    assert Interval(order, groups[m], starts[m]);
    assert Interval(order + [node], groups[m] + [node], starts[m]);
  }

  lemma ExtendRun(c: Colouring, order: seq<nat>, groups: seq<seq<nat>>, starts: seq<nat>, node: nat)
    requires MaximalRuns(c, order, groups, starts) && order != []
    requires |c.supported| == |c.float64| == |c.classes| && node < |c.supported|
    requires order[|order| - 1] < |c.supported| && c.Compatible(order[|order| - 1], node)
    ensures |groups| > 0
    ensures MaximalRuns(c, order + [node], groups[|groups| - 1 := groups[|groups| - 1] + [node]], starts)
  {
    LastGroupEndsTheOrder(c, order, groups, starts);
    var m := |groups| - 1;
    var runs := groups[m := groups[m] + [node]];
    ExtendIntervals(order, groups, starts, node);
    LocatedInLonger(c, order, node, groups, starts, runs, starts);
    ExtendColour(c, groups, starts, order[|order| - 1], node);
  }

  lemma ExtendColour(c: Colouring, groups: seq<seq<nat>>, starts: seq<nat>, last: nat, node: nat)
    requires OneColourEach(c, groups) && Maximal(c, groups, starts)
    requires groups != [] && last in groups[|groups| - 1]
    requires |c.supported| == |c.float64| == |c.classes| && node < |c.supported|
    requires last < |c.supported| && c.Compatible(last, node)
    ensures OneColourEach(c, groups[|groups| - 1 := groups[|groups| - 1] + [node]])
    ensures Maximal(c, groups[|groups| - 1 := groups[|groups| - 1] + [node]], starts)
  {
    var m := |groups| - 1;
    var runs := groups[m := groups[m] + [node]];
    assert c.OneColour(groups[m]);
    assert forall i :: 0 <= i < |groups| ==> runs[i][0] == groups[i][0];
    assert forall i :: 0 <= i < m ==> |runs[i]| == |groups[i]|;
  }

  lemma OpenIntervals(order: seq<nat>, groups: seq<seq<nat>>, starts: seq<nat>, node: nat)
    requires Intervals(order, groups, starts)
    ensures Intervals(order + [node], groups + [[node]], starts + [|order|])
  {
    LongerOrder(order, groups, starts, node);
    assert Interval(order + [node], [node], |order|);
    assert forall i :: 0 <= i < |groups| ==> Interval(order, groups[i], starts[i]);
  }

  lemma OpenMaximal(c: Colouring, order: seq<nat>, groups: seq<seq<nat>>, starts: seq<nat>, node: nat)
    requires Intervals(order, groups, starts) && OneColourEach(c, groups) && Maximal(c, groups, starts)
    requires |c.supported| == |c.float64| == |c.classes| && node < |c.supported| && c.supported[node]
    requires order != [] ==>
               order[|order| - 1] < |c.supported| && !c.Compatible(order[|order| - 1], node)
    ensures Maximal(c, groups + [[node]], starts + [|order|])
  {
    var n, m := |order|, |groups|;
    if m > 0 && starts[m - 1] + |groups[m - 1]| == n {
      var last := groups[m - 1];
      assert Interval(order, last, starts[m - 1]) && c.OneColour(last);
      assert last[|last| - 1] == order[n - 1];
      assert last[|last| - 1] in last;
      assert node in [last[0], node];
    }
  }

  lemma OpenRun(c: Colouring, order: seq<nat>, groups: seq<seq<nat>>, starts: seq<nat>, node: nat)
    requires MaximalRuns(c, order, groups, starts)
    requires |c.supported| == |c.float64| == |c.classes| && node < |c.supported| && c.supported[node]
    requires order != [] ==>
               order[|order| - 1] < |c.supported| && !c.Compatible(order[|order| - 1], node)
    ensures MaximalRuns(c, order + [node], groups + [[node]], starts + [|order|])
  {
    OpenIntervals(order, groups, starts, node);
    OpenMaximal(c, order, groups, starts, node);
    LocatedInLonger(c, order, node, groups, starts, groups + [[node]], starts + [|order|]);
    assert c.OneColour([node]);
  }

  lemma SkipNode(c: Colouring, order: seq<nat>, node: nat, groups: seq<seq<nat>>, starts: seq<nat>)
    requires MaximalRuns(c, order, groups, starts) && node !in c.SupportedNodes()
    ensures MaximalRuns(c, order + [node], groups, starts)
  {
    LongerOrder(order, groups, starts, node);
  }

  lemma AppendGreedy(pred: Graph, c: Colouring, order: seq<nat>, node: nat)
    requires GreedyOrder(pred, c, order) && node < |pred| && GreedyStep(pred, c, order, node)
    ensures GreedyOrder(pred, c, order + [node])
  {
    var next := order + [node];
    forall i | 0 <= i < |next| ensures GreedyStep(pred, c, next[..i], next[i]) {
      if i < |order| { assert next[..i] == order[..i]; } else { assert next[..i] == order; }
    }
  }

  // ---- The scheduler ----------------------------------------------------------------------------

  method Least(s: set<nat>) returns (least: nat)
    requires s != {}
    ensures SmallestOf(s, least)
  {
    least :| least in s;
    var rest := s;
    while rest != {}
      invariant least in s && rest <= s
      invariant forall w :: w in s ==> w in rest || least <= w
      decreases rest
    {
      var w :| w in rest;
      rest := rest - {w};
      if w < least { least := w; }
    }
  }

  /** The queues together hold `nodes`, each in the queue of its colour. */
  ghost predicate Queues(c: Colouring, nodes: set<nat>, ready: seq<set<nat>>) {
    && |c.supported| == |c.float64| == |c.classes|
    && nodes <= Range(|c.supported|)
    && |ready| == UNSUPPORTED + 1
    && forall k, v {:trigger v in ready[k]} :: 0 <= k <= UNSUPPORTED ==>
         (v in ready[k] <==> v in nodes && c.Kind(v) == k)
  }

  lemma QueueOne(c: Colouring, nodes: set<nat>, ready: seq<set<nat>>, x: nat)
    requires Queues(c, nodes, ready) && x < |c.supported|
    ensures Queues(c, nodes + {x}, ready[c.Kind(x) := ready[c.Kind(x)] + {x}])
  {
    var next := ready[c.Kind(x) := ready[c.Kind(x)] + {x}];
    forall k, v | 0 <= k <= UNSUPPORTED && v < |c.supported|
      ensures v in next[k] <==> v in nodes + {x} && c.Kind(v) == k
    {
      assert v in ready[k] <==> v in nodes && c.Kind(v) == k;
    }
  }

  lemma DequeueOne(c: Colouring, nodes: set<nat>, ready: seq<set<nat>>, x: nat)
    requires Queues(c, nodes, ready) && x < |c.supported|
    ensures Queues(c, nodes - {x}, ready[c.Kind(x) := ready[c.Kind(x)] - {x}])
  {
    var next := ready[c.Kind(x) := ready[c.Kind(x)] - {x}];
    forall k, v | 0 <= k <= UNSUPPORTED && v < |c.supported|
      ensures v in next[k] <==> v in nodes - {x} && c.Kind(v) == k
    {
      assert v in ready[k] <==> v in nodes && c.Kind(v) == k;
    }
  }

  method Enqueue(c: Colouring, ghost nodes: set<nat>, ready: seq<set<nat>>, freed: seq<nat>)
    returns (queues: seq<set<nat>>)
    requires Queues(c, nodes, ready) && Below(freed, |c.supported|)
    ensures Queues(c, nodes + Elements(freed), queues)
  {
    queues := ready;
    assert nodes + Elements(freed[..0]) == nodes;
    for i := 0 to |freed|
      invariant Queues(c, nodes + Elements(freed[..i]), queues)
    {
      QueueOne(c, nodes + Elements(freed[..i]), queues, freed[i]);
      assert nodes + Elements(freed[..i + 1]) == nodes + Elements(freed[..i]) + {freed[i]};
      var k := c.Kind(freed[i]);
      queues := queues[k := queues[k] + {freed[i]}];
    }
    assert freed[..|freed|] == freed;
  }

  /** The queue to serve next: the running colour if it can go on, else the smallest head. */
  method Choose(pred: Graph, c: Colouring, ghost emitted: seq<nat>, ready: seq<set<nat>>, current: int)
    returns (found: bool, node: nat)
    requires c.Valid(|pred|) && Queues(c, Ready(pred, emitted), ready)
    requires Below(emitted, |pred|)
    requires current == if emitted == [] then -1 else c.Kind(emitted[|emitted| - 1])
    ensures found <==> Ready(pred, emitted) != {}
    ensures found ==> GreedyStep(pred, c, emitted, node)
  {
    found, node := false, 0;
    if current >= 0 && ready[current] != {} {
      found := true;
      node := Least(ready[current]);
      assert ready[current] == Continuing(pred, c, emitted);
      return;
    }
    for k := 0 to UNSUPPORTED + 1
      invariant found ==> node in Ready(pred, emitted)
      invariant forall j, v :: 0 <= j < k && v in ready[j] ==> found && node <= v
    {
      if ready[k] != {} {
        var head := Least(ready[k]);
        if !found || head < node { found, node := true, head; }
      }
    }
    forall v | v in Ready(pred, emitted) ensures found && node <= v {
      assert v in ready[c.Kind(v)];
    }
    assert Continuing(pred, c, emitted) == {} by {
      if v :| v in Continuing(pred, c, emitted) { assert v in ready[current]; }
    }
  }

  method InitialQueues(c: Colouring, pred: Graph, indeg: array<nat>) returns (ready: seq<set<nat>>)
    requires c.Valid(|pred|) && ExactDegrees(pred, [], indeg[..])
    ensures Queues(c, Ready(pred, []), ready)
  {
    ready := seq(UNSUPPORTED + 1, _ => {});
    ghost var nodes: set<nat> := {};
    for v := 0 to |pred|
      invariant forall w :: w in nodes <==> 0 <= w < v && indeg[w] == 0
      invariant Queues(c, nodes, ready)
    {
      if indeg[v] == 0 {
        QueueOne(c, nodes, ready, v);
        ready := ready[c.Kind(v) := ready[c.Kind(v)] + {v}];
        nodes := nodes + {v};
      }
    }
    assert Elements([]) == {};
    forall v: nat | v < |pred| ensures indeg[v] == 0 <==> v in Ready(pred, []) {
      PendingZero(pred[v], {});
    }
    assert nodes == Ready(pred, []);
  }

  /** Append an emitted supported node to the running group, or open a group with it. */
  method AppendToRuns(c: Colouring, ghost order: seq<nat>, clusters: seq<seq<nat>>, ghost starts: seq<nat>,
                      node: nat, continues: bool)
    returns (runs: seq<seq<nat>>, ghost froms: seq<nat>)
    requires MaximalRuns(c, order, clusters, starts) && Below(order, |c.supported|)
    requires |c.supported| == |c.float64| == |c.classes| && node < |c.supported| && c.supported[node]
    requires continues <==> order != [] && c.Kind(order[|order| - 1]) == c.Kind(node)
    ensures MaximalRuns(c, order + [node], runs, froms)
  {
    if order != [] { c.SameKind(node, order[|order| - 1]); }
    if !continues {
      OpenRun(c, order, clusters, starts, node);
      runs, froms := clusters + [[node]], starts + [|order|];
    } else {
      ExtendRun(c, order, clusters, starts, node);
      runs, froms := clusters[|clusters| - 1 := clusters[|clusters| - 1] + [node]], starts;
    }
  }

  /**
   Emit nodes by the greedy colour rule and group each maximal run of one supported colour.
   On a graph without cycles the runs are a valid partition.
   */
  method TopologicalColourRuns(c: Colouring, succ: Graph, pred: Graph)
    returns (clusters: seq<seq<nat>>, ghost order: seq<nat>, ghost starts: seq<nat>)
    requires IsTranspose(succ, pred) && c.Valid(|succ|)
    ensures TopologicalPrefix(pred, order) && GreedyOrder(pred, c, order)
    ensures Acyclic(succ) <==> TopologicalOrder(pred, order)
    ensures MaximalRuns(c, order, clusters, starts)
    ensures Acyclic(succ) ==> ValidPartition(succ, c, clusters)
    ensures NoLoops(succ) && ValidPartition(succ, c, clusters) ==> Acyclic(succ)
  {
    var indeg := Degrees(pred);
    var ready := InitialQueues(c, pred, indeg);
    order, starts, clusters := [], [], [];
    var current: int := -1;
    var previous: int := -1;
    while true
      invariant TopologicalPrefix(pred, order) && GreedyOrder(pred, c, order)
      invariant ExactDegrees(pred, order, indeg[..])
      invariant Queues(c, Ready(pred, order), ready)
      invariant current == if order == [] then -1 else c.Kind(order[|order| - 1])
      invariant previous == if order == [] || !c.supported[order[|order| - 1]] then -1 else current
      invariant MaximalRuns(c, order, clusters, starts)
      decreases |pred| - |order|
    {
      var found, node := Choose(pred, c, order, ready, current);
      if !found { break; }
      var kind := c.Kind(node);
      DequeueOne(c, Ready(pred, order), ready, node);
      ready := ready[kind := ready[kind] - {node}];
      current := kind;
      if c.supported[node] {
        clusters, starts := AppendToRuns(c, order, clusters, starts, node, previous == kind);
        previous := kind;
      } else {
        SkipNode(c, order, node, clusters, starts);
        previous := -1;
      }
      var freed := Release(succ, pred, order, node, indeg);
      EmitReady(pred, order, node);
      AppendGreedy(pred, c, order, node);
      assert Below(freed, |pred|) by {
        assert forall i :: 0 <= i < |freed| ==> freed[i] in Elements(freed);
      }
      ready := Enqueue(c, Ready(pred, order) - {node}, ready, freed);
      order := order + [node];
      FullPrefixIsOrder(pred, order);
    }
    StuckMeansDoneOrCyclic(succ, pred, order);
    if Acyclic(succ) { RunsArePartition(succ, pred, c, order, clusters, starts); }
    if NoLoops(succ) && ValidPartition(succ, c, clusters) {
      RunsOfACycleAreNotAPartition(succ, pred, c, order, clusters, starts);
    }
  }
}
