/** Equal specialization keys come from equal decisions and equal boundary values. */
module KeyInjectivity {
  import opened Wrappers
  import opened PlanNodes
  import opened Noninterference
  import opened Decimal
  import opened SpecializationKeys

  lemma {:induction false} BitPrefix(a: bool, u: string, b: bool, v: string)
    requires Bit(a) + u == Bit(b) + v
    ensures a == b && u == v
  {
    SamePrefix(Bit(a), u, Bit(b), v);
  }

  lemma {:induction false} NaturalField(n: nat, u: string, m: nat, v: string, mark: string)
    requires Natural(n) + (mark + u) == Natural(m) + (mark + v) && |mark| == 1 && !IsDigit(mark[0])
    ensures n == m && u == v
  {
    NaturalPrefix(n, mark + u, m, mark + v);
    SamePrefix(mark, u, mark, v);
  }

  lemma {:induction false} IntegerField(n: int, u: string, m: int, v: string, mark: string)
    requires Integer(n) + (mark + u) == Integer(m) + (mark + v) && |mark| == 1 && !IsDigit(mark[0])
    ensures n == m && u == v
  {
    IntegerPrefix(n, mark + u, m, mark + v);
    SamePrefix(mark, u, mark, v);
  }

  lemma {:induction false} ListField(xs: seq<int>, u: string, ys: seq<int>, v: string, mark: string)
    requires List(xs) + (mark + u) == List(ys) + (mark + v) && |mark| == 1
    ensures xs == ys && u == v
  {
    ListPrefix(xs, mark + u, ys, mark + v);
    SamePrefix(mark, u, mark, v);
  }

  /** An entry with what follows it, field by field. */
  lemma {:induction false} OpenIf(ordinal: nat, taken: bool, u: string)
    ensures RenderEntry(IfEntry(ordinal, taken)) + u == "I" + (Natural(ordinal) + ("=" + (Bit(taken) + (";" + u))))
  {
    var a := Bit(taken) + ";";
    Regroup(Bit(taken), ";", u);
    Regroup("=", a, u);
    Regroup(Natural(ordinal), "=" + a, u);
    Regroup("I", Natural(ordinal) + ("=" + a), u);
  }

  lemma {:induction false} OpenLoop(ordinal: nat, trip: int, enter: bool, u: string)
    ensures RenderEntry(LoopEntry(ordinal, trip, enter)) + u
         == "L" + (Natural(ordinal) + ("=" + (Integer(trip) + ("," + (Bit(enter) + (";" + u))))))
  {
    var a := Bit(enter) + ";";
    Regroup(Bit(enter), ";", u);
    Regroup(",", a, u);
    Regroup(Integer(trip), "," + a, u);
    Regroup("=", Integer(trip) + ("," + a), u);
    Regroup(Natural(ordinal), "=" + (Integer(trip) + ("," + a)), u);
    Regroup("L", Natural(ordinal) + ("=" + (Integer(trip) + ("," + a))), u);
  }

  lemma {:induction false} OpenReading(r: Reading, u: string)
    ensures RenderReading(r) + u
         == "P" + (Natural(r.index) + (":" + (Natural(r.dtype) + (":" + (List(r.shape) + ("=" + (List(r.values) + (";" + u))))))))
  {
    var a := List(r.values) + ";";
    var b := List(r.shape) + ("=" + a);
    Regroup(List(r.values), ";", u);
    Regroup("=", a, u);
    Regroup(List(r.shape), "=" + a, u);
    Regroup(":", b, u);
    Regroup(Natural(r.dtype), ":" + b, u);
    Regroup(":", Natural(r.dtype) + (":" + b), u);
    Regroup(Natural(r.index), ":" + (Natural(r.dtype) + (":" + b)), u);
    Regroup("P", Natural(r.index) + (":" + (Natural(r.dtype) + (":" + b))), u);
  }

  function Initial(e: Entry): (c: char) { if e.IfEntry? then 'I' else 'L' }

  lemma {:induction false} EntryInitial(e: Entry, u: string)
    ensures RenderEntry(e) + u != [] && (RenderEntry(e) + u)[0] == Initial(e)
  {
  }

  lemma {:induction false} EntryPrefix(a: Entry, u: string, b: Entry, v: string)
    requires RenderEntry(a) + u == RenderEntry(b) + v
    ensures a == b && u == v
  {
    EntryInitial(a, u);
    EntryInitial(b, v);
    if a.IfEntry? {
      OpenIf(a.ordinal, a.taken, u);
      OpenIf(b.ordinal, b.taken, v);
      var x, y := Bit(a.taken) + (";" + u), Bit(b.taken) + (";" + v);
      SamePrefix("I", Natural(a.ordinal) + ("=" + x), "I", Natural(b.ordinal) + ("=" + y));
      NaturalField(a.ordinal, x, b.ordinal, y, "=");
      BitPrefix(a.taken, ";" + u, b.taken, ";" + v);
      SamePrefix(";", u, ";", v);
    } else {
      OpenLoop(a.ordinal, a.trip, a.enter, u);
      OpenLoop(b.ordinal, b.trip, b.enter, v);
      var x, y := Bit(a.enter) + (";" + u), Bit(b.enter) + (";" + v);
      var p, q := Integer(a.trip) + ("," + x), Integer(b.trip) + ("," + y);
      SamePrefix("L", Natural(a.ordinal) + ("=" + p), "L", Natural(b.ordinal) + ("=" + q));
      NaturalField(a.ordinal, p, b.ordinal, q, "=");
      IntegerField(a.trip, x, b.trip, y, ",");
      BitPrefix(a.enter, ";" + u, b.enter, ";" + v);
      SamePrefix(";", u, ";", v);
    }
  }

  lemma {:induction false} ReadingPrefix(a: Reading, u: string, b: Reading, v: string)
    requires RenderReading(a) + u == RenderReading(b) + v
    ensures a == b && u == v
  {
    OpenReading(a, u);
    OpenReading(b, v);
    var x, y := List(a.values) + (";" + u), List(b.values) + (";" + v);
    var p, q := List(a.shape) + ("=" + x), List(b.shape) + ("=" + y);
    var m, n := Natural(a.dtype) + (":" + p), Natural(b.dtype) + (":" + q);
    SamePrefix("P", Natural(a.index) + (":" + m), "P", Natural(b.index) + (":" + n));
    NaturalField(a.index, m, b.index, n, ":");
    NaturalField(a.dtype, p, b.dtype, q, ":");
    ListField(a.shape, x, b.shape, y, "=");
    ListField(a.values, u, b.values, v, ";");
  }

  lemma {:induction false} ReadingsInjective(a: seq<Reading>, b: seq<Reading>)
    requires RenderReadings(a) == RenderReadings(b)
    ensures a == b
  {
    if a != [] && b != [] {
      ReadingPrefix(a[0], RenderReadings(a[1..]), b[0], RenderReadings(b[1..]));
      ReadingsInjective(a[1..], b[1..]);
    }
  }

  /** The rendered readings are told from the entries by their first letter. */
  lemma {:induction false} KeyInjective(es: seq<Entry>, rs: seq<Reading>, fs: seq<Entry>, qs: seq<Reading>)
    requires RenderEntries(es) + RenderReadings(rs) == RenderEntries(fs) + RenderReadings(qs)
    ensures es == fs && rs == qs
  {
    SameEmptiness(es, rs, fs, qs);
    if es == [] {
      assert "" + RenderReadings(rs) == RenderReadings(rs) && "" + RenderReadings(qs) == RenderReadings(qs);
      ReadingsInjective(rs, qs);
    } else {
      FirstEntry(es, rs, fs, qs);
      KeyInjective(es[1..], rs, fs[1..], qs);
    }
  }

  lemma {:induction false} SameEmptiness(es: seq<Entry>, rs: seq<Reading>, fs: seq<Entry>, qs: seq<Reading>)
    requires RenderEntries(es) + RenderReadings(rs) == RenderEntries(fs) + RenderReadings(qs)
    ensures es == [] <==> fs == []
  {
    StartOfKey(es, rs);
    StartOfKey(fs, qs);
  }

  predicate StartsWithEntry(key: string) { key != [] && (key[0] == 'I' || key[0] == 'L') }

  lemma {:induction false} StartOfKey(es: seq<Entry>, rs: seq<Reading>)
    ensures StartsWithEntry(RenderEntries(es) + RenderReadings(rs)) <==> es != []
  {
    if es == [] {
      assert "" + RenderReadings(rs) == RenderReadings(rs);
      ReadingsStart(rs);
    } else {
      EntriesStart(es, rs);
    }
  }

  lemma {:induction false} FirstEntry(es: seq<Entry>, rs: seq<Reading>, fs: seq<Entry>, qs: seq<Reading>)
    requires es != [] && fs != []
    requires RenderEntries(es) + RenderReadings(rs) == RenderEntries(fs) + RenderReadings(qs)
    ensures es[0] == fs[0]
    ensures RenderEntries(es[1..]) + RenderReadings(rs) == RenderEntries(fs[1..]) + RenderReadings(qs)
  {
    var u, v := RenderEntries(es[1..]), RenderEntries(fs[1..]);
    Regroup(RenderEntry(es[0]), u, RenderReadings(rs));
    Regroup(RenderEntry(fs[0]), v, RenderReadings(qs));
    EntryPrefix(es[0], u + RenderReadings(rs), fs[0], v + RenderReadings(qs));
  }

  lemma {:induction false} EntriesStart(es: seq<Entry>, rs: seq<Reading>)
    requires es != []
    ensures StartsWithEntry(RenderEntries(es) + RenderReadings(rs))
  {
    EntryInitial(es[0], RenderEntries(es[1..]));
  }

  lemma {:induction false} ReadingsStart(rs: seq<Reading>)
    ensures RenderReadings(rs) != [] ==> RenderReadings(rs)[0] == 'P'
  {
  }

  // ---- From equal walks to equal decisions ------------------------------------------------------

  lemma {:induction false} SplitEntries(a: seq<Entry>, u: seq<Entry>, v: seq<Entry>)
    ensures a + (u + v) == a + u + v
  {
  }

  lemma {:induction false} WalkDecides(
    nodes: seq<Node>, w1: World, w2: World, ordinal: nat, t1: seq<Entry>, t2: seq<Entry>)
    requires Walk(nodes, w1, ordinal).Some? && Walk(nodes, w2, ordinal).Some?
    requires Walk(nodes, w1, ordinal).value + t1 == Walk(nodes, w2, ordinal).value + t2
    ensures Walk(nodes, w1, ordinal) == Walk(nodes, w2, ordinal) && t1 == t2
    ensures SameWalk(nodes, w1, w2)
    decreases nodes
  {
    if nodes == [] {
      assert [] + t1 == t1 && [] + t2 == t2;
    } else {
      var a, b := WalkNode(nodes[0], w1, ordinal).value, WalkNode(nodes[0], w2, ordinal).value;
      var u, v := Walk(nodes[1..], w1, ordinal + |a|).value, Walk(nodes[1..], w2, ordinal + |b|).value;
      SplitEntries(a, u, t1);
      SplitEntries(b, v, t2);
      WalkNodeDecides(nodes[0], w1, w2, ordinal, u + t1, v + t2);
      WalkDecides(nodes[1..], w1, w2, ordinal + |a|, t1, t2);
    }
  }

  lemma {:induction false} WalkNodeDecides(
    node: Node, w1: World, w2: World, ordinal: nat, t1: seq<Entry>, t2: seq<Entry>)
    requires WalkNode(node, w1, ordinal).Some? && WalkNode(node, w2, ordinal).Some?
    requires WalkNode(node, w1, ordinal).value + t1 == WalkNode(node, w2, ordinal).value + t2
    ensures WalkNode(node, w1, ordinal) == WalkNode(node, w2, ordinal) && t1 == t2
    ensures SameWalkNode(node, w1, w2)
    decreases node
  {
    match node.op
    case If =>
      var c1, c2 := HostScalar(node, 0, w1).value != 0, HostScalar(node, 0, w2).value != 0;
      var m1 := WalkBody(node, BranchRole(c1), w1, ordinal + 1).value;
      var m2 := WalkBody(node, BranchRole(c2), w2, ordinal + 1).value;
      Uncons(IfEntry(ordinal, c1), m1, t1, IfEntry(ordinal, c2), m2, t2);
      WalkBodyDecides(node, BranchRole(c1), w1, w2, ordinal + 1, t1, t2);
    case Loop =>
      var n1, n2 := HostScalar(node, 0, w1).value, HostScalar(node, 0, w2).value;
      var c1, c2 := HostScalar(node, 1, w1).value != 0, HostScalar(node, 1, w2).value != 0;
      var m1 := WalkNode(node, w1, ordinal).value[1..];
      var m2 := WalkNode(node, w2, ordinal).value[1..];
      Uncons(LoopEntry(ordinal, n1, c1), m1, t1, LoopEntry(ordinal, n2, c2), m2, t2);
      if c1 && n1 > 0 {
        WalkBodyDecides(node, LoopBody, w1, w2, ordinal + 1, t1, t2);
      } else {
        assert m1 == [] && m2 == [] && [] + t1 == t1 && [] + t2 == t2;
      }
    case Scan => WalkBodyDecides(node, LoopBody, w1, w2, ordinal, t1, t2);
    case _ => assert [] + t1 == t1 && [] + t2 == t2;
  }

  lemma {:induction false} Uncons(a: Entry, m: seq<Entry>, t: seq<Entry>, b: Entry, n: seq<Entry>, s: seq<Entry>)
    requires [a] + m + t == [b] + n + s
    ensures a == b && m + t == n + s
  {
    assert ([a] + m + t)[0] == a && ([b] + n + s)[0] == b;
    assert ([a] + m + t)[1..] == m + t && ([b] + n + s)[1..] == n + s;
  }

  lemma {:induction false} WalkBodyDecides(
    node: Node, role: Role, w1: World, w2: World, ordinal: nat, t1: seq<Entry>, t2: seq<Entry>)
    requires WalkBody(node, role, w1, ordinal).Some? && WalkBody(node, role, w2, ordinal).Some?
    requires WalkBody(node, role, w1, ordinal).value + t1 == WalkBody(node, role, w2, ordinal).value + t2
    ensures WalkBody(node, role, w1, ordinal) == WalkBody(node, role, w2, ordinal) && t1 == t2
    ensures SameWalkBody(node, role, w1, w2)
    decreases node, 0
  {
    var b := Body(node.subgraphs, role);
    if b < |node.subgraphs| {
      WalkDecides(node.subgraphs[b].nodes, w1, w2, ordinal, t1, t2);
    } else {
      assert [] + t1 == t1 && [] + t2 == t2;
    }
  }

  lemma {:induction false} NoControlFlow(nodes: seq<Node>, w1: World, w2: World)
    requires !AnyControlFlow(nodes)
    ensures SameWalk(nodes, w1, w2)
    decreases nodes
  {
    if nodes != [] {
      assert !NodeControlFlow(nodes[0]);
      forall n | 0 <= n < |nodes[1..]| ensures !NodeControlFlow(nodes[1..][n]) { assert nodes[1..][n] == nodes[n + 1]; }
      NoControlFlow(nodes[1..], w1, w2);
    }
  }

  lemma {:induction false} SameReadings(indices: seq<nat>, w1: World, w2: World, index: nat)
    requires ReadAll(indices, w1).Some? && ReadAll(indices, w1) == ReadAll(indices, w2) && index in indices
    ensures w1.inputs(index) == w2.inputs(index)
  {
    var a, b := ReadAll(indices, w1).value, ReadAll(indices, w2).value;
    assert ReadBoundary(indices[0], w1).value == a[0] && ReadBoundary(indices[0], w2).value == b[0];
    if index != indices[0] {
      assert ReadAll(indices[1..], w1).value == a[1..] && ReadAll(indices[1..], w2).value == b[1..];
      SameReadings(indices[1..], w1, w2, index);
    }
  }

  /** Equal keys: the same branches, trips and entries, and the same value of every keyed input. */
  lemma {:induction false} EqualKeysAgree(nodes: seq<Node>, indices: seq<nat>, w1: World, w2: World)
    requires forall index: nat {:trigger Keyed(nodes, index)} :: Keyed(nodes, index) ==> index in indices
    requires var flow := AnyControlFlow(nodes);
             Key(nodes, flow, indices, w1).Some? && Key(nodes, flow, indices, w1) == Key(nodes, flow, indices, w2)
    ensures SameWalk(nodes, w1, w2) && SameGuarded(nodes, w1, w2)
    ensures AnyControlFlow(nodes) ==> Walk(nodes, w1, 0) == Walk(nodes, w2, 0)
  {
    var flow := AnyControlFlow(nodes);
    var es := if flow then Walk(nodes, w1, 0).value else [];
    var fs := if flow then Walk(nodes, w2, 0).value else [];
    KeyInjective(es, ReadAll(indices, w1).value, fs, ReadAll(indices, w2).value);
    if flow {
      assert es + [] == fs + [];
      WalkDecides(nodes, w1, w2, 0, [], []);
    } else {
      NoControlFlow(nodes, w1, w2);
    }
    forall index: nat | Keyed(nodes, index) ensures w1.inputs(index) == w2.inputs(index) {
      SameReadings(indices, w1, w2, index);
    }
    KeyedCoversGuarded(nodes, w1, w2);
  }
}
