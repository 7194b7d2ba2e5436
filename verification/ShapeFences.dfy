/** Live Range bounds and Tile repeats close the compiled routes of every node that contains one. */
module ShapeFences {
  import opened PlanNodes

  predicate Live(r: TensorRef) { r.source != Initializer && !r.constant }

  predicate LiveTile(node: Node) {
    && (node.domain == Standard || node.domain == AiOnnx) && node.op == Tile && node.sinceVersion >= 6
    && |node.inputs| == 2 && |node.outputs| == 1 && Live(node.inputs[1])
  }

  predicate LiveRange(node: Node) {
    && (node.domain == Standard || node.domain == AiOnnx) && node.op == Range
    && |node.inputs| == 3 && |node.outputs| == 1 && node.resultType == INT64
    && exists i | 0 <= i < 3 :: Live(node.inputs[i])
  }

  predicate LiveHere(node: Node) { LiveTile(node) || LiveRange(node) }

  predicate LiveInside(node: Node) {
    exists s | 0 <= s < |node.subgraphs| :: AnyLive(node.subgraphs[s].nodes)
  }

  /** A live shape value, here or in a body. */
  predicate AnyLive(nodes: seq<Node>) {
    exists n | 0 <= n < |nodes| :: LiveHere(nodes[n]) || LiveInside(nodes[n])
  }

  function FencedNode(node: Node, nativeOwner: bool): (f: Node)
    ensures |f.subgraphs| == |node.subgraphs|
    decreases node
  {
    node.(
      safety := if LiveHere(node) && nativeOwner then Shapeless
                else if LiveHere(node) || LiveInside(node) then EagerOnly
                else node.safety,
      subgraphs := seq(|node.subgraphs|, s requires 0 <= s < |node.subgraphs| =>
        node.subgraphs[s].(nodes := Fenced(node.subgraphs[s].nodes, false))))
  }

  function Fenced(nodes: seq<Node>, nativeOwner: bool): (fs: seq<Node>)
    ensures |fs| == |nodes|
    decreases nodes
  {
    seq(|nodes|, n requires 0 <= n < |nodes| => FencedNode(nodes[n], nativeOwner))
  }

  /** Overwrite the safety of every node that holds a live value; report whether there was one. */
  method Fence(nodes: seq<Node>, nativeOwner: bool) returns (fenced: seq<Node>, live: bool)
    ensures fenced == Fenced(nodes, nativeOwner) && live == AnyLive(nodes)
    decreases nodes
  {
    fenced, live := [], false;
    for n := 0 to |nodes|
      invariant |fenced| == n
      invariant forall m {:trigger fenced[m]} :: 0 <= m < n ==> fenced[m] == FencedNode(nodes[m], nativeOwner)
      invariant live <==> exists m | 0 <= m < n :: LiveHere(nodes[m]) || LiveInside(nodes[m])
    {
      var node, nodeLive := FenceNode(nodes[n], nativeOwner);
      fenced := fenced + [node];
      live := live || nodeLive;
    }
  }

  /** Fence the bodies of a node, then the node itself. */
  method FenceNode(node: Node, nativeOwner: bool) returns (fenced: Node, live: bool)
    ensures fenced == FencedNode(node, nativeOwner) && live == (LiveHere(node) || LiveInside(node))
    decreases node
  {
    var bodies: seq<Subgraph>, nested := [], false;
    for s := 0 to |node.subgraphs|
      invariant |bodies| == s
      invariant forall m {:trigger bodies[m]} :: 0 <= m < s ==> bodies[m] == FencedNode(node, nativeOwner).subgraphs[m]
      invariant nested <==> exists m | 0 <= m < s :: AnyLive(node.subgraphs[m].nodes)
    {
      var inner, innerLive := Fence(node.subgraphs[s].nodes, false);
      bodies := bodies + [node.subgraphs[s].(nodes := inner)];
      nested := nested || innerLive;
    }
    var here := LiveHere(node);
    var safety := if here && nativeOwner then Shapeless else if here || nested then EagerOnly else node.safety;
    assert bodies == FencedNode(node, nativeOwner).subgraphs;
    fenced, live := node.(safety := safety, subgraphs := bodies), here || nested;
  }

  /** Outside the native owner, a plan keeps its shape-keyed routes exactly when nothing in it is live. */
  lemma {:induction false} FencedSupport(nodes: seq<Node>)
    ensures ShapeKeyedSupported(Fenced(nodes, false)) <==> ShapeKeyedSupported(nodes) && !AnyLive(nodes)
    decreases nodes, 1
  {
    var fs := Fenced(nodes, false);
    forall n | 0 <= n < |nodes|
      ensures NodeShapeKeyed(fs[n]) <==> NodeShapeKeyed(nodes[n]) && !LiveHere(nodes[n]) && !LiveInside(nodes[n])
    {
      FencedNodeSupport(nodes[n], false);
    }
    if ShapeKeyedSupported(fs) {
      forall n | 0 <= n < |nodes|
        ensures NodeShapeKeyed(nodes[n]) && !LiveHere(nodes[n]) && !LiveInside(nodes[n])
      {
        assert NodeShapeKeyed(fs[n]);
      }
    }
  }

  /** The native owner exempts its own live nodes, never those of a body. */
  lemma {:induction false} FencedNodeSupport(node: Node, nativeOwner: bool)
    ensures NodeShapeKeyed(FencedNode(node, nativeOwner)) <==>
            && !LiveInside(node)
            && (forall s {:trigger node.subgraphs[s]} :: 0 <= s < |node.subgraphs| ==>
                  ShapeKeyedSupported(node.subgraphs[s].nodes))
            && (if LiveHere(node) then nativeOwner else node.safety != EagerOnly)
    decreases node, 0
  {
    var f := FencedNode(node, nativeOwner);
    forall s | 0 <= s < |node.subgraphs|
      ensures ShapeKeyedSupported(f.subgraphs[s].nodes) <==>
              ShapeKeyedSupported(node.subgraphs[s].nodes) && !AnyLive(node.subgraphs[s].nodes)
    {
      FencedSupport(node.subgraphs[s].nodes);
    }
    if NodeShapeKeyed(f) {
      forall s | 0 <= s < |node.subgraphs|
        ensures ShapeKeyedSupported(node.subgraphs[s].nodes) && !AnyLive(node.subgraphs[s].nodes)
      {
        assert ShapeKeyedSupported(f.subgraphs[s].nodes);
      }
    }
  }

  /** A dynamic input: neither an initializer nor a constant of the plan. */
  predicate HasDynamic(node: Node, i: nat) {
    i < |node.inputs| && node.inputs[i].source != Initializer && !node.inputs[i].constant
  }

  /** Standard Tile from version 6 on with two inputs, whose repeats are dynamic. */
  predicate TileWithDynamicRepeats(node: Node) {
    && node.domain in {Standard, AiOnnx} && node.op == Tile && node.sinceVersion >= 6
    && |node.inputs| == 2 && |node.outputs| == 1 && HasDynamic(node, 1)
  }

  /** Standard int64 Range with a dynamic start, limit or delta. */
  predicate RangeWithDynamicBounds(node: Node) {
    && node.domain in {Standard, AiOnnx} && node.op == Range && |node.inputs| == 3 && |node.outputs| == 1
    && node.resultType == 7 && (HasDynamic(node, 0) || HasDynamic(node, 1) || HasDynamic(node, 2))
  }

  /** The route a fenced node keeps: its own, unless it, or a body of it at any depth, reads a live value. */
  lemma {:induction false} FenceMeans(node: Node, nativeOwner: bool)
    ensures var live := TileWithDynamicRepeats(node) || RangeWithDynamicBounds(node);
            FencedNode(node, nativeOwner).safety
            == if live then (if nativeOwner then Shapeless else EagerOnly)
               else if LiveInside(node) then EagerOnly else node.safety
  {
    assert LiveHere(node) <==> TileWithDynamicRepeats(node) || RangeWithDynamicBounds(node) by {
      if LiveRange(node) { var i :| 0 <= i < 3 && Live(node.inputs[i]); }
    }
  }
}
