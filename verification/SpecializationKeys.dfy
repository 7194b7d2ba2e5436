/**
 The host-value specialization key: the control-flow scalars met on the walk, then the guarded
 boundary parameters. Equal keys mean equal decisions and equal parameters.
 */
module SpecializationKeys {
  import opened Wrappers
  import opened Graphs
  import opened Sizes
  import opened PlanNodes
  import opened Noninterference
  import opened Decimal

  // ---- The boundary inputs that are keyed -------------------------------------------------------

  /** Some guarded host parameter, here or in a body, reads boundary input `index`. */
  ghost predicate Keyed(nodes: seq<Node>, index: nat)
    decreases nodes
  {
    exists n {:trigger nodes[n]} :: 0 <= n < |nodes| && KeyedNode(nodes[n], index)
  }

  ghost predicate KeyedNode(node: Node, index: nat)
    decreases node
  {
    KeyedHere(node, index) || KeyedInside(node, |node.subgraphs|, index)
  }

  ghost predicate KeyedInside(node: Node, count: nat, index: nat)
    requires count <= |node.subgraphs|
    decreases node, 0
  {
    exists s {:trigger node.subgraphs[s]} :: 0 <= s < count && Keyed(node.subgraphs[s].nodes, index)
  }

  ghost predicate KeyedHere(node: Node, index: nat) {
    exists i: nat {:trigger KeyedParameter(node, i)} :: KeyedParameter(node, i) && node.inputs[i].ctxIndex == index
  }

  method PushNew(indices: seq<nat>, index: nat) returns (more: seq<nat>)
    requires NoDup(indices)
    ensures NoDup(more)
    ensures forall x {:trigger x in more} {:trigger x in indices} :: x in more <==> x in indices || x == index
  {
    more := if index in indices then indices else indices + [index];
  }

  /** The keyed boundary inputs, each once. */
  method BoundaryShapeInputs(nodes: seq<Node>) returns (inputs: seq<nat>)
    ensures NoDup(inputs)
    ensures forall index: nat {:trigger index in inputs} {:trigger Keyed(nodes, index)} ::
              index in inputs <==> Keyed(nodes, index)
    decreases nodes
  {
    inputs := [];
    for n := 0 to |nodes|
      invariant NoDup(inputs)
      invariant forall index: nat {:trigger index in inputs} :: index in inputs <==>
                  exists m {:trigger nodes[m]} :: 0 <= m < n && KeyedNode(nodes[m], index)
    {
      ghost var before := inputs;
      inputs := NodeBoundaryInputs(nodes[n], inputs);
      forall index: nat
        ensures index in inputs <==> exists m {:trigger nodes[m]} :: 0 <= m < n + 1 && KeyedNode(nodes[m], index)
      {
        assert index in inputs <==> index in before || KeyedNode(nodes[n], index);
      }
    }
  }

  method NodeBoundaryInputs(node: Node, before: seq<nat>) returns (inputs: seq<nat>)
    requires NoDup(before)
    ensures NoDup(inputs)
    ensures forall index: nat {:trigger index in inputs} :: index in inputs <==> index in before || KeyedNode(node, index)
    decreases node
  {
    inputs := OwnBoundaryInputs(node, before);
    ghost var own := inputs;
    for s := 0 to |node.subgraphs|
      invariant NoDup(inputs)
      invariant forall index: nat {:trigger index in inputs} :: index in inputs <==>
                  index in own || KeyedInside(node, s, index)
    {
      var inner := BoundaryShapeInputs(node.subgraphs[s].nodes);
      ghost var start := inputs;
      for b := 0 to |inner|
        invariant NoDup(inputs)
        invariant forall index: nat {:trigger index in inputs} :: index in inputs <==>
                    index in start || index in inner[..b]
      {
        inputs := PushNew(inputs, inner[b]);
        assert inner[..b + 1] == inner[..b] + [inner[b]];
      }
      assert inner[..|inner|] == inner;
      forall index: nat
        ensures KeyedInside(node, s + 1, index) <==> KeyedInside(node, s, index) || Keyed(node.subgraphs[s].nodes, index)
      {
        OneMoreBody(node, s, index);
      }
    }
  }

  lemma {:induction false} OneMoreBody(node: Node, s: nat, index: nat)
    requires s < |node.subgraphs|
    ensures KeyedInside(node, s + 1, index) <==> KeyedInside(node, s, index) || Keyed(node.subgraphs[s].nodes, index)
  {
    assert node.subgraphs[s] == node.subgraphs[s];
  }

  method OwnBoundaryInputs(node: Node, before: seq<nat>) returns (inputs: seq<nat>)
    requires NoDup(before)
    ensures NoDup(inputs)
    ensures forall index: nat {:trigger index in inputs} :: index in inputs <==> index in before || KeyedHere(node, index)
  {
    inputs := before;
    var hosts := HostParameters(node);
    for h := 0 to |hosts|
      invariant NoDup(inputs)
      invariant forall index: nat {:trigger index in inputs} :: index in inputs <==>
                  || index in before
                  || exists i: nat {:trigger KeyedParameter(node, i)} ::
                       i in hosts[..h] && KeyedParameter(node, i) && node.inputs[i].ctxIndex == index
    {
      assert hosts[..h + 1] == hosts[..h] + [hosts[h]];
      var i := hosts[h];
      if i < |node.inputs| && !node.inputs[i].constant && !node.inputs[i].shapeConst
         && GuardedBoundary(node, node.inputs[i])
      {
        assert KeyedParameter(node, i);
        inputs := PushNew(inputs, node.inputs[i].ctxIndex);
      } else {
        assert !KeyedParameter(node, i);
      }
    }
    assert hosts[..|hosts|] == hosts;
  }

  /** If every keyed input has the same value, so has every guarded parameter. */
  lemma {:induction false} KeyedCoversGuarded(nodes: seq<Node>, w1: World, w2: World)
    requires forall index: nat {:trigger Keyed(nodes, index)} :: Keyed(nodes, index) ==> w1.inputs(index) == w2.inputs(index)
    ensures SameGuarded(nodes, w1, w2)
    decreases nodes
  {
    if nodes != [] {
      var node := nodes[0];
      forall index: nat | KeyedNode(node, index) ensures w1.inputs(index) == w2.inputs(index) {
        assert nodes[0] == node && Keyed(nodes, index);
      }
      KeyedCoversNode(node, w1, w2);
      forall index: nat | Keyed(nodes[1..], index) ensures w1.inputs(index) == w2.inputs(index) {
        var n :| 0 <= n < |nodes[1..]| && KeyedNode(nodes[1..][n], index);
        assert nodes[n + 1] == nodes[1..][n] && Keyed(nodes, index);
      }
      KeyedCoversGuarded(nodes[1..], w1, w2);
    }
  }

  lemma {:induction false} KeyedCoversNode(node: Node, w1: World, w2: World)
    requires forall index: nat {:trigger KeyedNode(node, index)} :: KeyedNode(node, index) ==> w1.inputs(index) == w2.inputs(index)
    ensures SameGuardedNode(node, w1, w2)
    decreases node
  {
    forall i: nat | KeyedParameter(node, i)
      ensures w1.inputs(node.inputs[i].ctxIndex) == w2.inputs(node.inputs[i].ctxIndex)
    {
      assert KeyedHere(node, node.inputs[i].ctxIndex) && KeyedNode(node, node.inputs[i].ctxIndex);
    }
    forall s | 0 <= s < |node.subgraphs| ensures SameGuarded(node.subgraphs[s].nodes, w1, w2) {
      var body := node.subgraphs[s];
      forall index: nat | Keyed(body.nodes, index) ensures w1.inputs(index) == w2.inputs(index) {
        assert node.subgraphs[s] == body && KeyedInside(node, |node.subgraphs|, index) && KeyedNode(node, index);
      }
      KeyedCoversGuarded(body.nodes, w1, w2);
    }
  }

  // ---- The control-flow walk --------------------------------------------------------------------

  datatype Entry =
    | IfEntry(ordinal: nat, taken: bool)
    | LoopEntry(ordinal: nat, trip: int, enter: bool)

  /** The scalars that steer the translator, in walk order; none if one is not host-readable. */
  function Walk(nodes: seq<Node>, w: World, ordinal: nat): (entries: Option<seq<Entry>>)
    decreases nodes
  {
    if nodes == [] then Some([])
    else
      var first := WalkNode(nodes[0], w, ordinal);
      if first.None? then None else Joined(first.value, Walk(nodes[1..], w, ordinal + |first.value|))
  }

  function Joined(first: seq<Entry>, more: Option<seq<Entry>>): (entries: Option<seq<Entry>>) {
    match more
    case None => None
    case Some(es) => Some(first + es)
  }

  function WalkNode(node: Node, w: World, ordinal: nat): (entries: Option<seq<Entry>>)
    decreases node
  {
    match node.op
    case If =>
      (match HostScalar(node, 0, w)
       case None => None
       case Some(c) =>
         Joined([IfEntry(ordinal, c != 0)], WalkBody(node, BranchRole(c != 0), w, ordinal + 1)))
    case Loop =>
      (match (HostScalar(node, 0, w), HostScalar(node, 1, w))
       case (Some(trip), Some(c)) =>
         Joined([LoopEntry(ordinal, trip, c != 0)],
                if c != 0 && trip > 0 then WalkBody(node, LoopBody, w, ordinal + 1) else Some([]))
       case _ => None)
    case Scan => WalkBody(node, LoopBody, w, ordinal)
    case _ => Some([])
  }

  /** Walk the first body with a role, if there is one. */
  function WalkBody(node: Node, role: Role, w: World, ordinal: nat): (entries: Option<seq<Entry>>)
    decreases node, 0
  {
    var b := Body(node.subgraphs, role);
    if b < |node.subgraphs| then Walk(node.subgraphs[b].nodes, w, ordinal) else Some([])
  }

  // ---- Rendering --------------------------------------------------------------------------------

  function Bit(b: bool): (text: string) { if b then "1" else "0" }

  function RenderEntry(e: Entry): (text: string) {
    match e
    case IfEntry(ordinal, taken) => "I" + (Natural(ordinal) + ("=" + (Bit(taken) + ";")))
    case LoopEntry(ordinal, trip, enter) =>
      "L" + (Natural(ordinal) + ("=" + (Integer(trip) + ("," + (Bit(enter) + ";")))))
  }

  function RenderEntries(es: seq<Entry>): (text: string) {
    if es == [] then "" else RenderEntry(es[0]) + RenderEntries(es[1..])
  }

  /** What a keyed boundary input holds. */
  datatype Reading = Reading(index: nat, dtype: nat, shape: seq<int>, values: seq<int>)

  /** Only one to sixty-four int32 or int64 values can be keyed. */
  function ReadBoundary(index: nat, w: World): (reading: Option<Reading>) {
    var v := w.inputs(index);
    match CheckedProduct(1, v.shape)
    case None => None
    case Some(count) =>
      if 1 <= count <= 64 && (v.dtype == INT64 || v.dtype == INT32) then Some(Reading(index, v.dtype, v.shape, v.data))
      else None
  }

  function ReadAll(indices: seq<nat>, w: World): (r: Option<seq<Reading>>)
    ensures r.Some? ==> |r.value| == |indices|
  {
    if indices == [] then Some([])
    else
      match (ReadBoundary(indices[0], w), ReadAll(indices[1..], w))
      case (Some(first), Some(more)) => Some([first] + more)
      case _ => None
  }

  function RenderReading(r: Reading): (text: string) {
    "P" + (Natural(r.index) + (":" + (Natural(r.dtype) + (":" + (List(r.shape) + ("=" + (List(r.values) + ";")))))))
  }

  function RenderReadings(rs: seq<Reading>): (text: string) {
    if rs == [] then "" else RenderReading(rs[0]) + RenderReadings(rs[1..])
  }

  /** The key of a call: control flow first, then the boundary parameters. */
  function Key(nodes: seq<Node>, controlFlow: bool, indices: seq<nat>, w: World): (key: Option<string>) {
    match (if controlFlow then Walk(nodes, w, 0) else Some([]), ReadAll(indices, w))
    case (Some(es), Some(rs)) => Some(RenderEntries(es) + RenderReadings(rs))
    case _ => None
  }

  predicate AnyControlFlow(nodes: seq<Node>) {
    exists n | 0 <= n < |nodes| :: NodeControlFlow(nodes[n])
  }

  predicate NodeControlFlow(node: Node) {
    || node.op == If || node.op == Loop || node.op == Scan || node.op == Named("SequenceMap")
    || exists s | 0 <= s < |node.subgraphs| :: AnyControlFlow(node.subgraphs[s].nodes)
  }
}
