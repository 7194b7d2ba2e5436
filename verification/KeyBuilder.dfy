/** Building the specialization key: the walk that appends to one string, and the boundary loop. */
module KeyBuilder {
  import opened Wrappers
  import opened PlanNodes
  import opened Noninterference
  import opened Decimal
  import opened SpecializationKeys

  /** What appending a walk to `out` and the ordinal must leave. */
  function Extended(out: string, ordinal: nat, walk: Option<seq<Entry>>): (more: Option<(string, nat)>) {
    match walk
    case None => None
    case Some(es) => Some((out + RenderEntries(es), ordinal + |es|))
  }

  lemma {:induction false} RenderAppend(a: seq<Entry>, b: seq<Entry>)
    ensures RenderEntries(a + b) == RenderEntries(a) + RenderEntries(b)
  {
    if a == [] {
      assert a + b == b && "" + RenderEntries(b) == RenderEntries(b);
    } else {
      assert (a + b)[0] == a[0] && (a + b)[1..] == a[1..] + b;
      RenderAppend(a[1..], b);
      Regroup(RenderEntry(a[0]), RenderEntries(a[1..]), RenderEntries(b));
    }
  }

  lemma {:induction false} ExtendTwice(out: string, ordinal: nat, a: seq<Entry>, b: seq<Entry>)
    ensures out + RenderEntries(a + b) == out + RenderEntries(a) + RenderEntries(b)
    ensures ordinal + |a + b| == ordinal + |a| + |b|
  {
    RenderAppend(a, b);
    Regroup(out, RenderEntries(a), RenderEntries(b));
  }

  /** Appending a walk is appending its first part, then the rest. */
  lemma {:induction false} ExtendStep(out: string, ordinal: nat, whole: Option<seq<Entry>>, first: Option<seq<Entry>>,
                                      rest: Option<seq<Entry>>, next: Option<(string, nat)>)
    requires whole == if first.None? then None else Joined(first.value, rest)
    requires next == Extended(out, ordinal, first)
    ensures next.None? ==> Extended(out, ordinal, whole).None?
    ensures next.Some? ==> Extended(out, ordinal, whole) == Extended(next.value.0, next.value.1, rest)
  {
    if first.Some? { ExtendJoined(out, ordinal, first.value, rest); }
  }

  lemma {:induction false} FirstOfWalk(nodes: seq<Node>, w: World, ordinal: nat, first: Option<seq<Entry>>)
    requires nodes != [] && first == WalkNode(nodes[0], w, ordinal)
    ensures Walk(nodes, w, ordinal)
         == if first.None? then None else Joined(first.value, Walk(nodes[1..], w, ordinal + |first.value|))
  {
  }

  lemma {:induction false} ExtendJoined(out: string, ordinal: nat, first: seq<Entry>, more: Option<seq<Entry>>)
    ensures Extended(out, ordinal, Joined(first, more)) == Extended(out + RenderEntries(first), ordinal + |first|, more)
  {
    if more.Some? { ExtendTwice(out, ordinal, first, more.value); }
  }

  lemma {:induction false} ExtendByNothing(out: string, ordinal: nat)
    ensures Extended(out, ordinal, Some([])) == Some((out, ordinal))
  {
    assert out + "" == out;
  }

  lemma {:induction false} ExtendByEntry(out: string, ordinal: nat, entry: Entry, more: Option<seq<Entry>>)
    ensures Extended(out, ordinal, Joined([entry], more)) == Extended(out + RenderEntry(entry), ordinal + 1, more)
  {
    assert [entry][1..] == [] && RenderEntry(entry) + "" == RenderEntry(entry);
    ExtendJoined(out, ordinal, [entry], more);
  }

  method AppendControl(nodes: seq<Node>, w: World, out0: string, ordinal0: nat) returns (r: Option<(string, nat)>)
    ensures r == Extended(out0, ordinal0, Walk(nodes, w, ordinal0))
    decreases nodes, 1
  {
    var out: string, ordinal: nat := out0, ordinal0;
    assert nodes[0..] == nodes;
    for n := 0 to |nodes|
      invariant Extended(out, ordinal, Walk(nodes[n..], w, ordinal)) == Extended(out0, ordinal0, Walk(nodes, w, ordinal0))
    {
      var next := AppendFirst(nodes[n..], w, out, ordinal);
      if next.None? { return None; }
      out, ordinal := next.value.0, next.value.1;
      assert nodes[n..][1..] == nodes[n + 1..];
    }
    assert nodes[|nodes|..] == [];
    ExtendByNothing(out, ordinal);
    r := Some((out, ordinal));
  }

  method AppendFirst(nodes: seq<Node>, w: World, out: string, ordinal: nat) returns (next: Option<(string, nat)>)
    requires nodes != []
    ensures next.None? ==> Extended(out, ordinal, Walk(nodes, w, ordinal)).None?
    ensures next.Some? ==> Extended(out, ordinal, Walk(nodes, w, ordinal))
                           == Extended(next.value.0, next.value.1, Walk(nodes[1..], w, next.value.1))
    decreases nodes, 0
  {
    ghost var first := WalkNode(nodes[0], w, ordinal);
    next := AppendNode(nodes[0], w, out, ordinal);
    FirstOfWalk(nodes, w, ordinal, first);
    if next.Some? {
      assert next.value.1 == ordinal + |first.value|;
      ExtendStep(out, ordinal, Walk(nodes, w, ordinal), first, Walk(nodes[1..], w, next.value.1), next);
    }
  }

  method AppendNode(node: Node, w: World, out: string, ordinal: nat) returns (r: Option<(string, nat)>)
    ensures r == Extended(out, ordinal, WalkNode(node, w, ordinal))
    decreases node
  {
    ExtendByNothing(out, ordinal);
    match node.op
    case If =>
      var c := HostScalar(node, 0, w);
      if c.None? { return None; }
      var entry := IfEntry(ordinal, c.value != 0);
      ExtendByEntry(out, ordinal, entry, WalkBody(node, BranchRole(c.value != 0), w, ordinal + 1));
      r := AppendBody(node, BranchRole(c.value != 0), w, out + RenderEntry(entry), ordinal + 1);
    case Loop => r := AppendLoop(node, w, out, ordinal);
    case Scan => r := AppendBody(node, LoopBody, w, out, ordinal);
    case _ => r := Some((out, ordinal));
  }

  method AppendLoop(node: Node, w: World, out: string, ordinal: nat) returns (r: Option<(string, nat)>)
    requires node.op == Loop
    ensures r == Extended(out, ordinal, WalkNode(node, w, ordinal))
    decreases node, 1
  {
    var trip, c := HostScalar(node, 0, w), HostScalar(node, 1, w);
    if trip.None? || c.None? { return None; }
    var entry := LoopEntry(ordinal, trip.value, c.value != 0);
    if c.value != 0 && trip.value > 0 {
      ExtendByEntry(out, ordinal, entry, WalkBody(node, LoopBody, w, ordinal + 1));
      r := AppendBody(node, LoopBody, w, out + RenderEntry(entry), ordinal + 1);
    } else {
      ExtendByEntry(out, ordinal, entry, Some([]));
      ExtendByNothing(out + RenderEntry(entry), ordinal + 1);
      r := Some((out + RenderEntry(entry), ordinal + 1));
    }
  }

  method AppendBody(node: Node, role: Role, w: World, out: string, ordinal: nat) returns (r: Option<(string, nat)>)
    ensures r == Extended(out, ordinal, WalkBody(node, role, w, ordinal))
    decreases node, 0
  {
    var b := Body(node.subgraphs, role);
    if b < |node.subgraphs| {
      r := AppendControl(node.subgraphs[b].nodes, w, out, ordinal);
    } else {
      ExtendByNothing(out, ordinal);
      r := Some((out, ordinal));
    }
  }

  // ---- The boundary loop ------------------------------------------------------------------------

  function ExtendedBy(key: string, readings: Option<seq<Reading>>): (more: Option<string>) {
    match readings
    case None => None
    case Some(rs) => Some(key + RenderReadings(rs))
  }

  lemma {:induction false} ExtendByReading(indices: seq<nat>, w: World, key: string)
    requires indices != []
    ensures var first := ReadBoundary(indices[0], w);
            ExtendedBy(key, ReadAll(indices, w))
            == if first.None? then None else ExtendedBy(key + RenderReading(first.value), ReadAll(indices[1..], w))
  {
    var first, more := ReadBoundary(indices[0], w), ReadAll(indices[1..], w);
    if first.Some? && more.Some? {
      assert ([first.value] + more.value)[1..] == more.value;
      Regroup(key, RenderReading(first.value), RenderReadings(more.value));
    }
  }

  /** Append one record per keyed boundary input. */
  method AppendBoundary(indices: seq<nat>, w: World, key0: string) returns (r: Option<string>)
    ensures r == ExtendedBy(key0, ReadAll(indices, w))
  {
    var key := key0;
    assert indices[0..] == indices;
    for i := 0 to |indices|
      invariant ExtendedBy(key, ReadAll(indices[i..], w)) == ExtendedBy(key0, ReadAll(indices, w))
    {
      assert indices[i..][0] == indices[i] && indices[i..][1..] == indices[i + 1..];
      ExtendByReading(indices[i..], w, key);
      var reading := ReadBoundary(indices[i], w);
      if reading.None? { return None; }
      key := key + RenderReading(reading.value);
    }
    assert indices[|indices|..] == [] && key + "" == key;
    r := Some(key);
  }

  /** The whole key of a call. */
  method BuildKey(nodes: seq<Node>, controlFlow: bool, indices: seq<nat>, w: World) returns (r: Option<string>)
    ensures r == Key(nodes, controlFlow, indices, w)
  {
    var key := "";
    if controlFlow {
      var walked := AppendControl(nodes, w, "", 0);
      if walked.None? { return None; }
      assert "" + RenderEntries(Walk(nodes, w, 0).value) == RenderEntries(Walk(nodes, w, 0).value);
      key := walked.value.0;
    }
    r := AppendBoundary(indices, w, key);
  }
}
