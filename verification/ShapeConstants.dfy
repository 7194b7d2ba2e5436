/**
 Shape constants: the dataflow marking of values that derive from shapes and constants alone, and
 what it guarantees about any two runs of a plan.
 */
module ShapeConstants {
  import opened PlanNodes

  // ---- The marking ------------------------------------------------------------------------------

  /** The names that are still constant inside a body: not its inputs, not what it produces. */
  function Inherited(constants: set<string>, body: Subgraph): (inner: set<string>) {
    constants - (set name | name in body.inputNames) - Outputs(body.nodes)
  }

  function Outputs(nodes: seq<Node>): (names: set<string>) {
    set n, name | 0 <= n < |nodes| && name in nodes[n].outputs :: name
  }

  predicate ConstantRef(r: TensorRef) {
    r.source == Absent || r.source == Initializer || r.constant || r.shapeConst
  }

  /** The names a marked node adds. */
  function Produced(node: Node): (names: set<string>) {
    if node.subgraphs == []
       && (node.op == Shape || node.op == Size
           || (!IsRandom(node.op) && forall i | 0 <= i < |node.inputs| :: ConstantRef(node.inputs[i])))
    then set name | name in node.outputs && name != ""
    else {}
  }

  function MarkedRef(r: TensorRef, constants: set<string>): (marked: TensorRef) {
    r.(shapeConst := r.name != "" && r.name in constants)
  }

  function MarkedNode(node: Node, constants: set<string>): (m: Node)
    ensures |m.inputs| == |node.inputs| && |m.subgraphs| == |node.subgraphs| && m.op == node.op
    ensures m.outputs == node.outputs && m.domain == node.domain
    decreases node
  {
    node.(
      inputs := seq(|node.inputs|, i requires 0 <= i < |node.inputs| => MarkedRef(node.inputs[i], constants)),
      subgraphs := seq(|node.subgraphs|, s requires 0 <= s < |node.subgraphs| =>
        node.subgraphs[s].(nodes := Marked(node.subgraphs[s].nodes, Inherited(constants, node.subgraphs[s])))))
  }

  function Marked(nodes: seq<Node>, constants: set<string>): (ms: seq<Node>)
    ensures |ms| == |nodes|
    decreases nodes
  {
    if nodes == [] then []
    else
      var first := MarkedNode(nodes[0], constants);
      [first] + Marked(nodes[1..], constants + Produced(first))
  }

  /** Mark every input of every node, in the plan's order, bodies in the scope they inherit. */
  method MarkShapeConstants(nodes: seq<Node>, inherited: set<string>) returns (marked: seq<Node>)
    ensures marked == Marked(nodes, inherited)
    decreases nodes
  {
    marked := [];
    var constants := inherited;
    assert nodes[0..] == nodes;
    for n := 0 to |nodes|
      invariant marked + Marked(nodes[n..], constants) == Marked(nodes, inherited)
    {
      var first := MarkNode(nodes[n], constants);
      assert nodes[n..][0] == nodes[n] && nodes[n..][1..] == nodes[n + 1..];
      marked := marked + [first];
      constants := constants + Produced(first);
    }
    assert nodes[|nodes|..] == [];
  }

  method MarkNode(node: Node, constants: set<string>) returns (marked: Node)
    ensures marked == MarkedNode(node, constants)
    decreases node
  {
    var inputs: seq<TensorRef> := [];
    for i := 0 to |node.inputs|
      invariant |inputs| == i
      invariant forall j {:trigger inputs[j]} :: 0 <= j < i ==> inputs[j] == MarkedRef(node.inputs[j], constants)
    {
      inputs := inputs + [MarkedRef(node.inputs[i], constants)];
    }
    var bodies: seq<Subgraph> := [];
    for s := 0 to |node.subgraphs|
      invariant |bodies| == s
      invariant forall j {:trigger bodies[j]} :: 0 <= j < s ==> bodies[j] == MarkedNode(node, constants).subgraphs[j]
    {
      var inner := ScopeOf(node.subgraphs[s], constants);
      var inside := MarkShapeConstants(node.subgraphs[s].nodes, inner);
      bodies := bodies + [node.subgraphs[s].(nodes := inside)];
    }
    marked := node.(inputs := inputs, subgraphs := bodies);
  }

  /** Drop the body's inputs, then every name the body produces. */
  method ScopeOf(body: Subgraph, constants: set<string>) returns (inner: set<string>)
    ensures inner == Inherited(constants, body)
  {
    inner := constants - (set name | name in body.inputNames);
    for b := 0 to |body.nodes|
      invariant inner == constants - (set name | name in body.inputNames) - Outputs(body.nodes[..b])
    {
      inner := inner - (set name | name in body.nodes[b].outputs);
      OutputsOneMore(body.nodes, b);
    }
    assert body.nodes[..|body.nodes|] == body.nodes;
  }

  lemma {:induction false} OutputsOneMore(nodes: seq<Node>, b: nat)
    requires b < |nodes|
    ensures Outputs(nodes[..b + 1]) == Outputs(nodes[..b]) + (set name | name in nodes[b].outputs)
  {
    forall name | name in Outputs(nodes[..b + 1])
      ensures name in Outputs(nodes[..b]) || name in nodes[b].outputs
    {
      var n :| 0 <= n < b + 1 && name in nodes[..b + 1][n].outputs;
      if n < b { assert name in nodes[..b][n].outputs; }
    }
    forall name | name in Outputs(nodes[..b]) ensures name in Outputs(nodes[..b + 1]) {
      var n :| 0 <= n < b && name in nodes[..b][n].outputs;
      assert name in nodes[..b + 1][n].outputs;
    }
    forall name | name in nodes[b].outputs ensures name in Outputs(nodes[..b + 1]) {
      assert name in nodes[..b + 1][b].outputs;
    }
  }

  /** The flags of every node are those the marking gives. */
  ghost predicate Flagged(nodes: seq<Node>, constants: set<string>)
    decreases nodes
  {
    nodes == [] || (FlaggedNode(nodes[0], constants) && Flagged(nodes[1..], constants + Produced(nodes[0])))
  }

  ghost predicate FlaggedNode(node: Node, constants: set<string>)
    decreases node
  {
    && (forall i {:trigger node.inputs[i]} :: 0 <= i < |node.inputs| ==>
          node.inputs[i] == MarkedRef(node.inputs[i], constants))
    && (forall s {:trigger node.subgraphs[s]} :: 0 <= s < |node.subgraphs| ==>
          Flagged(node.subgraphs[s].nodes, Inherited(constants, node.subgraphs[s])))
  }

  lemma {:induction false} OutputsOfMarked(nodes: seq<Node>, constants: set<string>)
    ensures Outputs(Marked(nodes, constants)) == Outputs(nodes)
    decreases nodes
  {
    if nodes != [] {
      var first := MarkedNode(nodes[0], constants);
      OutputsOfMarked(nodes[1..], constants + Produced(first));
      OutputsFirst(nodes);
      OutputsFirst(Marked(nodes, constants));
    }
  }

  lemma {:induction false} OutputsFirst(nodes: seq<Node>)
    requires nodes != []
    ensures Outputs(nodes) == (set name | name in nodes[0].outputs) + Outputs(nodes[1..])
  {
    forall name | name in Outputs(nodes) ensures name in nodes[0].outputs || name in Outputs(nodes[1..]) {
      var n :| 0 <= n < |nodes| && name in nodes[n].outputs;
      if n > 0 { assert name in nodes[1..][n - 1].outputs; }
    }
    forall name | name in Outputs(nodes[1..]) ensures name in Outputs(nodes) {
      var n :| 0 <= n < |nodes| - 1 && name in nodes[1..][n].outputs;
      assert name in nodes[n + 1].outputs;
    }
  }

  lemma {:induction false} MarkedIsFlagged(nodes: seq<Node>, constants: set<string>)
    ensures Flagged(Marked(nodes, constants), constants)
    decreases nodes
  {
    if nodes != [] {
      var first := MarkedNode(nodes[0], constants);
      NodeIsFlagged(nodes[0], constants);
      MarkedIsFlagged(nodes[1..], constants + Produced(first));
      assert Marked(nodes, constants)[1..] == Marked(nodes[1..], constants + Produced(first));
    }
  }

  lemma {:induction false} NodeIsFlagged(node: Node, constants: set<string>)
    ensures FlaggedNode(MarkedNode(node, constants), constants)
    decreases node
  {
    var m := MarkedNode(node, constants);
    forall s | 0 <= s < |m.subgraphs|
      ensures Flagged(m.subgraphs[s].nodes, Inherited(constants, m.subgraphs[s]))
    {
      var body := node.subgraphs[s];
      OutputsOfMarked(body.nodes, Inherited(constants, body));
      MarkedIsFlagged(body.nodes, Inherited(constants, body));
    }
  }

  // ---- What the marking means -------------------------------------------------------------------

  /** Its outputs follow from shapes and constants alone: no bodies, no draws, and only constant inputs. */
  ghost predicate Derives(marked: Node) {
    && marked.subgraphs == []
    && (marked.op == Shape || marked.op == Size
        || (marked.op !in {RandomNormal, RandomUniform, RandomNormalLike, RandomUniformLike, Bernoulli, Multinomial, Dropout}
            && forall i {:trigger marked.inputs[i]} :: 0 <= i < |marked.inputs| ==>
                 var r := marked.inputs[i]; r.source == Absent || r.source == Initializer || r.constant || r.shapeConst))
  }

  /** A name is constant before node `n`: inherited, or an output of an earlier node that derives from constants. */
  ghost predicate ConstantBefore(marked: seq<Node>, constants: set<string>, n: nat, name: string)
    requires n <= |marked|
  {
    name in constants
    || (name != "" && exists m {:trigger marked[m]} :: 0 <= m < n && Derives(marked[m]) && name in marked[m].outputs)
  }

  lemma {:induction false} ProducedMeans(node: Node, name: string)
    ensures name in Produced(node) <==> Derives(node) && name in node.outputs && name != ""
  {
  }

  lemma {:induction false} ConstantLater(marked: seq<Node>, constants: set<string>, n: nat, name: string)
    requires 0 < n <= |marked|
    ensures ConstantBefore(marked, constants, n, name)
         <==> ConstantBefore(marked[1..], constants + Produced(marked[0]), n - 1, name)
  {
    ProducedMeans(marked[0], name);
    assert forall m {:trigger marked[m]} :: 0 < m < |marked| ==> marked[m] == marked[1..][m - 1];
    assert forall m {:trigger marked[1..][m]} :: 0 <= m < |marked| - 1 ==> marked[1..][m] == marked[m + 1];
  }

  /** Every input is flagged exactly when its name is constant before its node; nothing else of it changes. */
  lemma {:induction false} MarkedMeans(nodes: seq<Node>, constants: set<string>, n: nat, i: nat)
    requires n < |nodes| && i < |nodes[n].inputs|
    ensures var marked, r := Marked(nodes, constants), nodes[n].inputs[i];
            && |marked[n].inputs| == |nodes[n].inputs|
            && marked[n].inputs[i] == r.(shapeConst := r.name != "" && ConstantBefore(marked, constants, n, r.name))
    decreases n
  {
    var marked := Marked(nodes, constants);
    var first := MarkedNode(nodes[0], constants);
    assert marked == [first] + Marked(nodes[1..], constants + Produced(first));
    if n > 0 {
      MarkedMeans(nodes[1..], constants + Produced(first), n - 1, i);
      assert marked[1..] == Marked(nodes[1..], constants + Produced(first));
      ConstantLater(marked, constants, n, nodes[n].inputs[i].name);
    }
  }

  /** A body is marked with the names constant before its node, less its own inputs and outputs. */
  lemma {:induction false} MarkedBody(nodes: seq<Node>, constants: set<string>, n: nat, s: nat) returns (inner: set<string>)
    requires n < |nodes| && s < |nodes[n].subgraphs|
    ensures var marked, body := Marked(nodes, constants), nodes[n].subgraphs[s];
            && |marked[n].subgraphs| == |nodes[n].subgraphs|
            && marked[n].subgraphs[s] == body.(nodes := Marked(body.nodes, inner))
            && forall name {:trigger name in inner} :: name in inner <==>
                 && ConstantBefore(marked, constants, n, name) && name !in body.inputNames
                 && forall b {:trigger body.nodes[b]} :: 0 <= b < |body.nodes| ==> name !in body.nodes[b].outputs
    decreases n
  {
    var marked := Marked(nodes, constants);
    var first := MarkedNode(nodes[0], constants);
    assert marked == [first] + Marked(nodes[1..], constants + Produced(first));
    if n > 0 {
      inner := MarkedBody(nodes[1..], constants + Produced(first), n - 1, s);
      assert marked[1..] == Marked(nodes[1..], constants + Produced(first));
      forall name ensures ConstantBefore(marked, constants, n, name)
                          <==> ConstantBefore(marked[1..], constants + Produced(first), n - 1, name)
      {
        ConstantLater(marked, constants, n, name);
      }
    } else {
      inner := Inherited(constants, nodes[0].subgraphs[s]);
    }
  }
}
