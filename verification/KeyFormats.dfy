/** When a call has a key, and what the key of a small plan looks like. */
module KeyFormats {
  import opened Wrappers
  import opened Sizes
  import opened PlanNodes
  import opened Noninterference
  import opened Decimal
  import opened SpecializationKeys

  // ---- When there is a key ----------------------------------------------------------------------

  /** Every control-flow scalar on the walk can be read on the host. */
  ghost predicate Readable(nodes: seq<Node>, w: World)
    decreases nodes
  {
    nodes == [] || (ReadableNode(nodes[0], w) && Readable(nodes[1..], w))
  }

  ghost predicate ReadableNode(node: Node, w: World)
    decreases node
  {
    match node.op
    case If =>
      && HostScalar(node, 0, w).Some?
      && ReadableBody(node, if HostScalar(node, 0, w).value != 0 then ThenBranch else ElseBranch, w)
    case Loop =>
      && HostScalar(node, 0, w).Some? && HostScalar(node, 1, w).Some?
      && (HostScalar(node, 1, w).value != 0 && HostScalar(node, 0, w).value > 0 ==> ReadableBody(node, LoopBody, w))
    case Scan => ReadableBody(node, LoopBody, w)
    case _ => true
  }

  ghost predicate ReadableBody(node: Node, role: Role, w: World)
    decreases node, 0
  {
    var b := Body(node.subgraphs, role);
    b < |node.subgraphs| ==> Readable(node.subgraphs[b].nodes, w)
  }

  lemma {:induction false} WalkExists(nodes: seq<Node>, w: World, ordinal: nat)
    ensures Walk(nodes, w, ordinal).Some? <==> Readable(nodes, w)
    decreases nodes
  {
    if nodes != [] {
      var first := WalkNode(nodes[0], w, ordinal);
      WalkNodeExists(nodes[0], w, ordinal);
      if first.Some? { WalkExists(nodes[1..], w, ordinal + |first.value|); }
    }
  }

  lemma {:induction false} WalkNodeExists(node: Node, w: World, ordinal: nat)
    ensures WalkNode(node, w, ordinal).Some? <==> ReadableNode(node, w)
    decreases node
  {
    match node.op
    case If =>
      if HostScalar(node, 0, w).Some? {
        WalkBodyExists(node, if HostScalar(node, 0, w).value != 0 then ThenBranch else ElseBranch, w, ordinal + 1);
      }
    case Loop => WalkBodyExists(node, LoopBody, w, ordinal + 1);
    case Scan => WalkBodyExists(node, LoopBody, w, ordinal);
    case _ =>
  }

  lemma {:induction false} WalkBodyExists(node: Node, role: Role, w: World, ordinal: nat)
    ensures WalkBody(node, role, w, ordinal).Some? <==> ReadableBody(node, role, w)
    decreases node, 0
  {
    var b := Body(node.subgraphs, role);
    if b < |node.subgraphs| { WalkExists(node.subgraphs[b].nodes, w, ordinal); }
  }

  /** One to sixty-four int32 or int64 values. */
  ghost predicate KeyableValue(v: Value) {
    && (v.dtype == 7 || v.dtype == 6)
    && exists dims: seq<nat> {:trigger Product(dims)} :: dims == v.shape && 1 <= Product(dims) <= 64
  }

  lemma {:induction false} SmallProduct(n: nat, dims: seq<nat>)
    requires 1 <= n * Product(dims) <= 64
    ensures CheckedProduct(n, dims) == Some(n * Product(dims))
    decreases |dims|
  {
    if dims != [] {
      var first, more := n * dims[0], Product(dims[1..]);
      Sizes.Regroup(n, dims[0], more);
      Factor(first, more);
      SmallProduct(first, dims[1..]);
    }
  }

  lemma {:induction false} CheckedDims(n: nat, dims: seq<int>) returns (nats: seq<nat>)
    requires CheckedProduct(n, dims).Some?
    ensures nats == dims && CheckedProduct(n, dims) == Some(n * Product(nats))
  {
    forall j | 0 <= j < |dims| ensures dims[j] >= 0 {
      if dims[j] < 0 { NegativeIsRefused(n, dims, j); }
    }
    nats := dims;
    CheckedIsProduct(n, nats);
  }

  /** A boundary input can be keyed exactly when it is a keyable value. */
  lemma {:induction false} BoundaryExists(index: nat, w: World)
    ensures ReadBoundary(index, w).Some? <==> KeyableValue(w.inputs(index))
  {
    var v := w.inputs(index);
    if KeyableValue(v) {
      var dims: seq<nat> :| dims == v.shape && 1 <= Product(dims) <= 64;
      SmallProduct(1, dims);
    }
    if ReadBoundary(index, w).Some? {
      var dims := CheckedDims(1, v.shape);
      assert Product(dims) == CheckedProduct(1, v.shape).value;
    }
  }

  lemma {:induction false} AllBoundaryExists(indices: seq<nat>, w: World)
    ensures ReadAll(indices, w).Some? <==>
            forall i {:trigger indices[i]} :: 0 <= i < |indices| ==> KeyableValue(w.inputs(indices[i]))
  {
    if indices != [] {
      BoundaryExists(indices[0], w);
      AllBoundaryExists(indices[1..], w);
      assert forall i {:trigger indices[i]} :: 0 < i < |indices| ==> indices[i] == indices[1..][i - 1];
      assert forall i {:trigger indices[1..][i]} :: 0 <= i < |indices| - 1 ==> indices[1..][i] == indices[i + 1];
    }
  }

  /** A call has a key exactly when its walk is readable and every keyed boundary input is keyable. */
  lemma {:induction false} KeyExists(nodes: seq<Node>, controlFlow: bool, indices: seq<nat>, w: World)
    ensures Key(nodes, controlFlow, indices, w).Some? <==>
            && (controlFlow ==> Readable(nodes, w))
            && forall i {:trigger indices[i]} :: 0 <= i < |indices| ==> KeyableValue(w.inputs(indices[i]))
  {
    WalkExists(nodes, w, 0);
    AllBoundaryExists(indices, w);
  }

  // ---- What keys look like ----------------------------------------------------------------------

  lemma {:induction false} OneEntry(node: Node, w: World, entry: Entry)
    requires WalkNode(node, w, 0) == Some([entry])
    ensures Key([node], true, [], w) == Some(RenderEntry(entry))
  {
    assert [node][1..] == [] && [entry] + [] == [entry] && [entry][1..] == [];
    assert RenderEntry(entry) + "" == RenderEntry(entry);
    assert Walk([node], w, 0) == Some([entry]);
    assert RenderEntries([entry]) == RenderEntry(entry);
  }

  /** A Loop that is not entered, or has no body to walk, is keyed by its trip count and condition. */
  lemma {:induction false} LoopKey(node: Node, w: World, trip: int, c: int)
    requires node.op == Loop && HostScalar(node, 0, w) == Some(trip) && HostScalar(node, 1, w) == Some(c)
    requires c == 0 || trip <= 0 || node.subgraphs == []
    ensures Key([node], true, [], w) == Some("L0=" + Integer(trip) + "," + (if c != 0 then "1" else "0") + ";")
  {
    var entry := LoopEntry(0, trip, c != 0);
    assert [entry] + [] == [entry];
    OneEntry(node, w, entry);
    assert Natural(0) == "0";
    LoopText(Integer(trip), if c != 0 then "1" else "0");
  }

  lemma {:induction false} LoopText(trip: string, bit: string)
    ensures "L" + ("0" + ("=" + (trip + ("," + (bit + ";"))))) == "L0=" + trip + "," + bit + ";"
  {
    assert "L" + ("0" + ("=" + (trip + ("," + (bit + ";"))))) == "L0=" + (trip + ("," + (bit + ";")));
  }

  /** An If without the body it asks for is keyed by its decision. */
  lemma {:induction false} IfKey(node: Node, w: World, c: int)
    requires node.op == If && HostScalar(node, 0, w) == Some(c) && node.subgraphs == []
    ensures Key([node], true, [], w) == Some(if c != 0 then "I0=1;" else "I0=0;")
  {
    var entry := IfEntry(0, c != 0);
    assert [entry] + [] == [entry];
    OneEntry(node, w, entry);
    assert Natural(0) == "0";
    assert RenderEntry(entry) == if c != 0 then "I0=1;" else "I0=0;";
  }

  /** Two and three trips of one Loop have these two keys. */
  lemma {:induction false} TripsAreKeyed(node: Node, two: World, three: World)
    requires node.op == Loop && node.subgraphs == []
    requires HostScalar(node, 0, two) == Some(2) && HostScalar(node, 0, three) == Some(3)
    requires HostScalar(node, 1, two) == Some(1) && HostScalar(node, 1, three) == Some(1)
    ensures Key([node], true, [], two) == Some("L0=2,1;") && Key([node], true, [], three) == Some("L0=3,1;")
  {
    LoopKey(node, two, 2, 1);
    LoopKey(node, three, 3, 1);
    TripTexts();
  }

  lemma {:induction false} TripTexts()
    ensures "L0=" + Integer(2) + "," + "1" + ";" == "L0=2,1;"
    ensures "L0=" + Integer(3) + "," + "1" + ";" == "L0=3,1;"
  {
    assert Integer(2) == "2" && Integer(3) == "3";
  }
}
