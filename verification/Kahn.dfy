/** Kahn's scheduling, shared by the stack, heap and colour-queue variants. */
module Kahn {
  import opened Graphs

  /** Incoming edges, with multiplicity, whose source is not in `done`. */
  ghost function Pending(preds: seq<nat>, done: set<nat>): (n: nat) {
    if preds == [] then 0
    else Pending(preds[..|preds| - 1], done) + if preds[|preds| - 1] in done then 0 else 1
  }

  lemma {:induction false} PendingFinish(preds: seq<nat>, done: set<nat>, x: nat)
    requires x !in done
    ensures Pending(preds, done) == Pending(preds, done + {x}) + multiset(preds)[x]
  {
    if preds != [] {
      PendingFinish(preds[..|preds| - 1], done, x);
      assert preds == preds[..|preds| - 1] + [preds[|preds| - 1]];
    }
  }

  lemma {:induction false} PendingZero(preds: seq<nat>, done: set<nat>)
    ensures Pending(preds, done) == 0 <==> forall u :: u in preds ==> u in done
  {
    if preds != [] {
      PendingZero(preds[..|preds| - 1], done);
      assert preds == preds[..|preds| - 1] + [preds[|preds| - 1]];
    }
  }

  lemma {:induction false} PendingNothingDone(preds: seq<nat>)
    ensures Pending(preds, {}) == |preds|
  {
    if preds != [] { PendingNothingDone(preds[..|preds| - 1]); }
  }

  /** Unemitted nodes all of whose predecessors are emitted. */
  ghost function Ready(pred: Graph, emitted: seq<nat>): (ready: set<nat>) {
    set v: nat | v < |pred| && v !in emitted && forall u :: u in pred[v] ==> u in emitted
  }

  /** A duplicate-free list of nodes, each preceded by all its predecessors. */
  ghost predicate TopologicalPrefix(pred: Graph, emitted: seq<nat>) {
    && NoDup(emitted)
    && Below(emitted, |pred|)
    && forall i :: 0 <= i < |emitted| ==> forall u :: u in pred[emitted[i]] ==> u in emitted[..i]
  }

  ghost predicate TopologicalOrder(pred: Graph, order: seq<nat>) {
    TopologicalPrefix(pred, order) && Elements(order) == Range(|pred|)
  }

  ghost predicate ExactDegrees(pred: Graph, emitted: seq<nat>, indeg: seq<nat>) {
    |indeg| == |pred| && forall v :: 0 <= v < |pred| ==> indeg[v] == Pending(pred[v], Elements(emitted))
  }

  lemma EmitReady(pred: Graph, emitted: seq<nat>, node: nat)
    requires TopologicalPrefix(pred, emitted) && node in Ready(pred, emitted)
    ensures TopologicalPrefix(pred, emitted + [node])
  {
    var next := emitted + [node];
    forall i | 0 <= i < |next| ensures next[i] < |pred| && forall u :: u in pred[next[i]] ==> u in next[..i] {
      if i < |emitted| {
        assert next[..i] == emitted[..i];
      } else {
        assert next[..i] == emitted;
      }
    }
  }

  lemma {:induction false} NoDupCardinality(s: seq<nat>)
    requires NoDup(s)
    ensures |Elements(s)| == |s|
  {
    if s != [] {
      var front := s[..|s| - 1];
      NoDupCardinality(front);
      assert Elements(s) == Elements(front) + {s[|s| - 1]};
    }
  }

  lemma {:induction false} RangeCardinality(n: nat)
    ensures |Range(n)| == n
  {
    if n > 0 { RangeCardinality(n - 1); }
  }

  /** A prefix that lists as many nodes as there are lists them all. */
  lemma FullPrefixIsOrder(pred: Graph, emitted: seq<nat>)
    requires TopologicalPrefix(pred, emitted)
    ensures |emitted| <= |pred|
    ensures |emitted| == |pred| <==> TopologicalOrder(pred, emitted)
  {
    var all := Range(|pred|);
    RangeCardinality(|pred|);
    NoDupCardinality(emitted);
    assert Elements(emitted) <= all;
    SubsetCardinality(Elements(emitted), all);
  }

  lemma {:induction false} SubsetCardinality(a: set<nat>, b: set<nat>)
    requires a <= b
    ensures |a| <= |b|
    ensures |a| == |b| ==> a == b
  {
    if a != {} {
      var x :| x in a;
      SubsetCardinality(a - {x}, b - {x});
    }
  }

  function PositionIn(s: seq<nat>, x: nat): (i: nat)
    requires x in s
    ensures i < |s| && s[i] == x
    ensures x !in s[..i]
  {
    if s[0] == x then 0 else
      var i := PositionIn(s[1..], x) + 1;
      assert s[..i] == [s[0]] + s[1..][..i - 1];
      i
  }

  lemma FirstPosition(s: seq<nat>, x: nat, k: nat)
    requires k < |s| && s[k] == x
    ensures PositionIn(s, x) <= k
  {
    var p := PositionIn(s, x);
    assert forall i :: 0 <= i < p ==> s[..p][i] == s[i];
  }

  /** A complete topological order schedules the graph. */
  lemma OrderRanks(succ: Graph, pred: Graph, order: seq<nat>)
    requires IsTranspose(succ, pred) && TopologicalOrder(pred, order)
    ensures forall u: nat, v: nat :: Edge(succ, u, v) ==>
              u in order && v in order && PositionIn(order, u) < PositionIn(order, v)
    ensures Acyclic(succ)
  {
    forall v: nat | v < |succ| ensures v in order {
      assert v in Elements(order);
    }
    forall u: nat, v: nat | Edge(succ, u, v) ensures PositionIn(order, u) < PositionIn(order, v) {
      TransposeEdge(succ, pred, u, v);
      var i := PositionIn(order, v);
      assert u in order[..i];
      var k :| 0 <= k < i && order[k] == u;
      FirstPosition(order, u, k);
    }
    var rank: seq<nat> := seq(|succ|, (v: int) requires 0 <= v < |succ| => PositionIn(order, v));
    assert IsRank(succ, rank);
  }

  /** On an acyclic graph scheduling only gets stuck when every node is out. */
  lemma {:induction false} AlwaysReady(succ: Graph, pred: Graph, emitted: seq<nat>, rank: seq<nat>, v: nat)
    requires IsTranspose(succ, pred) && IsRank(succ, rank)
    requires v < |succ| && v !in emitted
    ensures Ready(pred, emitted) != {}
    decreases rank[v]
  {
    if u :| u in pred[v] && u !in emitted {
      TransposeEdge(succ, pred, u, v);
      assert Edge(succ, u, v);
      AlwaysReady(succ, pred, emitted, rank, u);
    } else {
      assert v in Ready(pred, emitted);
    }
  }

  lemma StuckMeansDoneOrCyclic(succ: Graph, pred: Graph, emitted: seq<nat>)
    requires IsTranspose(succ, pred) && TopologicalPrefix(pred, emitted) && Ready(pred, emitted) == {}
    ensures Acyclic(succ) <==> TopologicalOrder(pred, emitted)
  {
    if Acyclic(succ) {
      var rank :| IsRank(succ, rank);
      forall v: nat | v < |pred| ensures v in emitted {
        if v !in emitted { AlwaysReady(succ, pred, emitted, rank, v); }
      }
      assert Elements(emitted) == Range(|pred|);
    }
    if TopologicalOrder(pred, emitted) {
      OrderRanks(succ, pred, emitted);
    }
  }

  /** Count the incoming edges of every node. */
  method Degrees(pred: Graph) returns (indeg: array<nat>)
    ensures fresh(indeg) && ExactDegrees(pred, [], indeg[..])
  {
    indeg := new nat[|pred|];
    for v := 0 to |pred|
      invariant forall w :: 0 <= w < v ==> indeg[w] == Pending(pred[w], {})
    {
      PendingNothingDone(pred[v]);
      indeg[v] := |pred[v]|;
    }
    assert Elements([]) == {};
  }

  ghost predicate PartlyReleased(pred: Graph, done: set<nat>, rest: seq<nat>, indeg: seq<nat>) {
    |indeg| == |pred| && forall v :: 0 <= v < |pred| ==> indeg[v] == Pending(pred[v], done) + multiset(rest)[v]
  }

  /**
   Emit `node`: take its outgoing edges away and return, once each, the nodes this made ready.
   */
  method Release(succ: Graph, ghost pred: Graph, ghost emitted: seq<nat>, node: nat, indeg: array<nat>)
    returns (freed: seq<nat>)
    requires IsTranspose(succ, pred)
    requires TopologicalPrefix(pred, emitted) && node in Ready(pred, emitted)
    requires ExactDegrees(pred, emitted, indeg[..])
    modifies indeg
    ensures ExactDegrees(pred, emitted + [node], indeg[..])
    ensures NoDup(freed)
    ensures Elements(freed) !! Ready(pred, emitted)
    ensures Ready(pred, emitted + [node]) == Ready(pred, emitted) - {node} + Elements(freed)
  {
    ghost var done := Elements(emitted + [node]);
    assert done == Elements(emitted) + {node};
    forall v: nat | v < |pred| ensures indeg[v] == Pending(pred[v], done) + multiset(succ[node])[v] {
      PendingFinish(pred[v], Elements(emitted), node);
      assert multiset(succ[node])[v] == multiset(pred[v])[node];
    }
    freed := [];
    assert succ[node][0..] == succ[node];
    for k := 0 to |succ[node]|
      invariant PartlyReleased(pred, done, succ[node][k..], indeg[..])
      invariant NoDup(freed)
      invariant forall v :: v in freed <==> v in succ[node][..k] && v < |pred| && indeg[v] == 0
    {
      var next := succ[node][k];
      ghost var rest := succ[node][k..];
      assert rest == [next] + succ[node][k + 1..];
      assert succ[node][..k + 1] == succ[node][..k] + [next];
      assert next in succ[node] && multiset(rest)[next] > 0;
      indeg[next] := indeg[next] - 1;
      if indeg[next] == 0 {
        freed := freed + [next];
      }
    }
    assert succ[node][|succ[node]|..] == [];
    assert succ[node][..|succ[node]|] == succ[node];
    ReleasedReady(succ, pred, emitted, node, freed, indeg[..]);
  }

  lemma ReleasedReady(
    succ: Graph, pred: Graph, emitted: seq<nat>, node: nat, freed: seq<nat>, indeg: seq<nat>)
    requires IsTranspose(succ, pred) && TopologicalPrefix(pred, emitted) && node in Ready(pred, emitted)
    requires ExactDegrees(pred, emitted + [node], indeg)
    requires forall v :: v in freed <==> v in succ[node] && v < |pred| && indeg[v] == 0
    ensures Elements(freed) !! Ready(pred, emitted)
    ensures Ready(pred, emitted + [node]) == Ready(pred, emitted) - {node} + Elements(freed)
  {
    var next := emitted + [node];
    forall v: nat | v < |pred|
      ensures v in Ready(pred, next) <==> v in Ready(pred, emitted) - {node} + Elements(freed)
      ensures v in freed ==> v !in Ready(pred, emitted)
    {
      PendingZero(pred[v], Elements(next));
      TransposeEdge(succ, pred, node, v);
    }
  }

  /**
   Kahn's algorithm with a stack. The nodes it lists form a topological order exactly when the
   graph has no cycle.
   */
  method StackOrder(succ: Graph, pred: Graph) returns (order: seq<nat>)
    requires IsTranspose(succ, pred)
    ensures TopologicalPrefix(pred, order)
    ensures |order| == |succ| <==> Acyclic(succ)
    ensures |order| == |succ| ==> TopologicalOrder(pred, order)
  {
    var indeg := Degrees(pred);
    var stack: seq<nat> := [];
    for v := 0 to |pred|
      invariant NoDup(stack)
      invariant forall w :: w in stack <==> 0 <= w < v && indeg[w] == 0
    {
      if indeg[v] == 0 { stack := stack + [v]; }
    }
    order := [];
    forall v: nat | v < |pred| ensures v in stack <==> v in Ready(pred, order) {
      PendingZero(pred[v], {});
      assert Elements([]) == {};
    }
    while stack != []
      invariant TopologicalPrefix(pred, order)
      invariant ExactDegrees(pred, order, indeg[..])
      invariant NoDup(stack) && Elements(stack) == Ready(pred, order)
      decreases |pred| - |order|
    {
      var node := stack[|stack| - 1];
      assert node in Elements(stack);
      ghost var below := stack[..|stack| - 1];
      stack := stack[..|stack| - 1];
      assert Elements(stack) == Ready(pred, order) - {node};
      var freed := Release(succ, pred, order, node, indeg);
      EmitReady(pred, order, node);
      order := order + [node];
      FullPrefixIsOrder(pred, order);
      stack := stack + freed;
      assert Elements(stack) == Elements(below) + Elements(freed);
      assert NoDup(stack) by {
        forall i, j | 0 <= i < j < |stack| ensures stack[i] != stack[j] {
          if i < |below| <= j {
            assert stack[i] in below && stack[j] in freed && stack[j] in Elements(freed);
          }
        }
      }
    }
    assert Ready(pred, order) == {} by { assert Elements([]) == {}; }
    StuckMeansDoneOrCyclic(succ, pred, order);
    FullPrefixIsOrder(pred, order);
  }
}
