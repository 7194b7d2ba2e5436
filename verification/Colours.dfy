/** What may share a fused group: support, float64 use and compile class of each node. */
module Colours {
  import opened Graphs

  datatype CompileClass = Shapeless | ShapeKeyed | Eager

  datatype Colouring = Colouring(supported: seq<bool>, float64: seq<bool>, classes: seq<CompileClass>) {
    predicate Valid(n: nat) {
      |supported| == |float64| == |classes| == n
    }

    /** The queue of a node: six colours of supported nodes, and one queue for the rest. */
    function Kind(v: nat): (k: nat)
      requires v < |supported| == |float64| == |classes|
      ensures k <= UNSUPPORTED
      ensures k == UNSUPPORTED <==> !supported[v]
    {
      if !supported[v] then UNSUPPORTED
      else (if float64[v] then CLASSES else 0)
           + match classes[v] case Shapeless => 0 case ShapeKeyed => 1 case Eager => 2
    }

    /** Two supported nodes that one group may hold. */
    ghost predicate Compatible(u: nat, v: nat)
      requires u < |supported| == |float64| == |classes| && v < |supported|
    {
      supported[u] && supported[v] && float64[u] == float64[v] && classes[u] == classes[v]
    }

    lemma SameKind(u: nat, v: nat)
      requires u < |supported| == |float64| == |classes| && v < |supported| && supported[u]
      ensures Kind(u) == Kind(v) <==> Compatible(u, v)
    {
    }

    ghost function SupportedNodes(): (s: set<nat>)
      ensures forall v :: v in s <==> 0 <= v < |supported| && supported[v]
    {
      set v | v in Range(|supported|) && supported[v]
    }

    /** The group holds supported nodes of one colour only. */
    ghost predicate OneColour(group: seq<nat>) {
      && |supported| == |float64| == |classes|
      && forall v :: v in group ==> group[0] < |supported| && v < |supported| && Compatible(group[0], v)
    }
  }

  /** One colour means: every node is supported, and any two agree on float64 use and compile class. */
  lemma OneColourMeans(c: Colouring, group: seq<nat>)
    requires |c.supported| == |c.float64| == |c.classes|
    ensures c.OneColour(group) <==>
            forall u, v :: u in group && v in group ==>
              && u < |c.supported| && v < |c.supported|
              && c.supported[u] && c.float64[u] == c.float64[v] && c.classes[u] == c.classes[v]
  {
    if c.OneColour(group) {
      forall u, v | u in group && v in group
        ensures u < |c.supported| && v < |c.supported|
        ensures c.supported[u] && c.float64[u] == c.float64[v] && c.classes[u] == c.classes[v]
      {
        assert c.Compatible(group[0], u) && c.Compatible(group[0], v);
      }
    } else {
      var v :| v in group && !(group[0] < |c.supported| && v < |c.supported| && c.Compatible(group[0], v));
      assert group[0] in group;
    }
  }

  const CLASSES: nat := 3
  const UNSUPPORTED: nat := 2 * CLASSES

  /**
   What every partitioning path promises: supported nodes in exactly one group each, one colour per
   group, and a schedulable graph once each group is one node.
   */
  ghost predicate ValidPartition(g: Graph, c: Colouring, groups: seq<seq<nat>>) {
    && c.Valid(|g|)
    && ([] !in groups)
    && ExactCover(groups, c.SupportedNodes())
    && (forall group :: group in groups ==> c.OneColour(group))
    && AcyclicQuotient(g, groups)
  }
}
