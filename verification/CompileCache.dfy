/**
 The general compiled route: one specialization token per host-value key, one trace per shape key.
 Over any sequence of calls, a compiled answer is the answer the eager translator would give.
 */
module CompileCache {
  import opened Wrappers
  import opened PlanNodes
  import opened ShapeConstants
  import opened ShapeFences
  import opened Noninterference
  import opened FencedPlans
  import opened SpecializationKeys
  import opened KeyInjectivity
  import opened KeyBuilder

  const INT32_MAX := 0x7fff_ffff
  const SPECIALIZATION_LIMIT := 16

  datatype DynInput = DynInput(name: string, index: nat)

  /** What the shape-keyed cache observes of a call: types and shapes, and the synthetic token. */
  datatype ShapeKey = ShapeKey(inputs: seq<(nat, seq<int>)>, token: Option<nat>)

  /** Failures outside the model's control: compiling the closure, tracing, evaluating. */
  datatype Faults = Faults(compile: bool, trace: bool, evaluate: bool)

  datatype Answer = Handled(outputs: seq<Value>) | Fallback

  // ---- Closure inputs ---------------------------------------------------------------------------

  /** Some node, here or in a body, reads dynamic boundary input `d`. */
  ghost predicate ReadsInput(nodes: seq<Node>, d: DynInput)
    decreases nodes
  {
    exists n {:trigger nodes[n]} :: 0 <= n < |nodes| && NodeReadsInput(nodes[n], d)
  }

  ghost predicate NodeReadsInput(node: Node, d: DynInput)
    decreases node
  {
    OwnInput(node, |node.inputs|, d) || BodyReadsInput(node, |node.subgraphs|, d)
  }

  ghost predicate OwnInput(node: Node, count: nat, d: DynInput)
    requires count <= |node.inputs|
  {
    exists i {:trigger node.inputs[i]} :: 0 <= i < count && Reads(node, i) && Dynamic(node.inputs[i]) && d == Ref(node.inputs[i])
  }

  ghost predicate BodyReadsInput(node: Node, count: nat, d: DynInput)
    requires count <= |node.subgraphs|
    decreases node, 0
  {
    && (node.op == If || node.op == Loop || node.op == Scan)
    && exists s {:trigger node.subgraphs[s]} :: 0 <= s < count && ReadsInput(node.subgraphs[s].nodes, d)
  }

  predicate Dynamic(r: TensorRef) { r.source == CtxInput && !r.constant }

  function Ref(r: TensorRef): (d: DynInput) { DynInput(r.name, r.ctxIndex) }

  /** Every input the nodes read has the index its name stands for. */
  ghost predicate Indexed(nodes: seq<Node>, ctx: map<string, nat>) {
    forall d: DynInput {:trigger ReadsInput(nodes, d)} :: ReadsInput(nodes, d) ==> d.name in ctx && ctx[d.name] == d.index
  }

  ghost predicate Known(inputs: seq<DynInput>, ctx: map<string, nat>) {
    forall d: DynInput {:trigger d in inputs} :: d in inputs ==> d.name in ctx && ctx[d.name] == d.index
  }

  predicate HasName(inputs: seq<DynInput>, name: string) {
    exists i {:trigger inputs[i]} :: 0 <= i < |inputs| && inputs[i].name == name
  }

  method PushInput(inputs: seq<DynInput>, d: DynInput, ghost ctx: map<string, nat>) returns (more: seq<DynInput>)
    requires Known(inputs, ctx) && d.name in ctx && ctx[d.name] == d.index
    ensures Known(more, ctx)
    ensures forall x {:trigger x in more} :: x in more <==> x in inputs || x == d
  {
    if HasName(inputs, d.name) {
      ghost var i :| 0 <= i < |inputs| && inputs[i].name == d.name;
      assert inputs[i] in inputs && inputs[i] == d;
      more := inputs;
    } else {
      more := inputs + [d];
    }
  }

  /** The dynamic boundary inputs in the order they are first read, each name once. */
  method CollectInputs(nodes: seq<Node>, before: seq<DynInput>, ghost ctx: map<string, nat>)
    returns (inputs: seq<DynInput>)
    requires Known(before, ctx) && Indexed(nodes, ctx)
    ensures Known(inputs, ctx)
    ensures forall d: DynInput {:trigger d in inputs} {:trigger ReadsInput(nodes, d)} ::
              d in inputs <==> d in before || ReadsInput(nodes, d)
    decreases nodes
  {
    inputs := before;
    for n := 0 to |nodes|
      invariant Known(inputs, ctx)
      invariant forall d: DynInput {:trigger d in inputs} :: d in inputs <==>
                  d in before || exists m {:trigger nodes[m]} :: 0 <= m < n && NodeReadsInput(nodes[m], d)
    {
      ghost var start := inputs;
      forall d: DynInput | NodeReadsInput(nodes[n], d) ensures d.name in ctx && ctx[d.name] == d.index {
        assert ReadsInput(nodes, d);
      }
      inputs := CollectNodeInputs(nodes[n], inputs, ctx);
      forall d: DynInput
        ensures d in inputs <==>
                d in before || exists m {:trigger nodes[m]} :: 0 <= m < n + 1 && NodeReadsInput(nodes[m], d)
      {
        assert d in inputs <==> d in start || NodeReadsInput(nodes[n], d);
      }
    }
  }

  method CollectNodeInputs(node: Node, before: seq<DynInput>, ghost ctx: map<string, nat>)
    returns (inputs: seq<DynInput>)
    requires Known(before, ctx)
    requires forall d: DynInput {:trigger NodeReadsInput(node, d)} ::
               NodeReadsInput(node, d) ==> d.name in ctx && ctx[d.name] == d.index
    ensures Known(inputs, ctx)
    ensures forall d: DynInput {:trigger d in inputs} :: d in inputs <==> d in before || NodeReadsInput(node, d)
    decreases node
  {
    inputs := CollectOwnInputs(node, before, ctx);
    if node.op == If || node.op == Loop || node.op == Scan {
      ghost var own := inputs;
      for s := 0 to |node.subgraphs|
        invariant Known(inputs, ctx)
        invariant forall d: DynInput {:trigger d in inputs} :: d in inputs <==> d in own || BodyReadsInput(node, s, d)
      {
        ghost var start := inputs;
        forall d: DynInput | ReadsInput(node.subgraphs[s].nodes, d) ensures d.name in ctx && ctx[d.name] == d.index {
          OneMoreReader(node, s, d);
          assert BodyReadsInput(node, |node.subgraphs|, d) && NodeReadsInput(node, d);
        }
        inputs := CollectInputs(node.subgraphs[s].nodes, inputs, ctx);
        forall d: DynInput ensures d in inputs <==> d in own || BodyReadsInput(node, s + 1, d) {
          OneMoreReader(node, s, d);
          assert d in inputs <==> d in start || ReadsInput(node.subgraphs[s].nodes, d);
        }
      }
    }
  }

  lemma {:induction false} OneMoreReader(node: Node, s: nat, d: DynInput)
    requires s < |node.subgraphs| && (node.op == If || node.op == Loop || node.op == Scan)
    ensures BodyReadsInput(node, s + 1, d) <==> BodyReadsInput(node, s, d) || ReadsInput(node.subgraphs[s].nodes, d)
  {
    assert node.subgraphs[s] == node.subgraphs[s];
  }

  method CollectOwnInputs(node: Node, before: seq<DynInput>, ghost ctx: map<string, nat>)
    returns (inputs: seq<DynInput>)
    requires Known(before, ctx)
    requires forall d: DynInput {:trigger NodeReadsInput(node, d)} ::
               NodeReadsInput(node, d) ==> d.name in ctx && ctx[d.name] == d.index
    ensures Known(inputs, ctx)
    ensures forall d: DynInput {:trigger d in inputs} :: d in inputs <==> d in before || OwnInput(node, |node.inputs|, d)
  {
    inputs := before;
    for i := 0 to |node.inputs|
      invariant Known(inputs, ctx)
      invariant forall d: DynInput {:trigger d in inputs} :: d in inputs <==> d in before || OwnInput(node, i, d)
    {
      ghost var start := inputs;
      var r := node.inputs[i];
      if Reads(node, i) && Dynamic(r) {
        assert OwnInput(node, |node.inputs|, Ref(r)) && NodeReadsInput(node, Ref(r));
        inputs := PushInput(inputs, Ref(r), ctx);
      }
      forall d: DynInput ensures d in inputs <==> d in before || OwnInput(node, i + 1, d) {
        assert node.inputs[i] == r;
        assert OwnInput(node, i + 1, d) <==> OwnInput(node, i, d) || (Reads(node, i) && Dynamic(r) && d == Ref(r));
      }
    }
  }

  lemma {:induction false} CleanIsIndexed(nodes: seq<Node>, ctx: map<string, nat>, constants: set<string>, d: DynInput)
    requires Clean(nodes, ctx, constants) && ReadsInput(nodes, d)
    ensures d.name in ctx && ctx[d.name] == d.index
    decreases nodes
  {
    var n :| 0 <= n < |nodes| && NodeReadsInput(nodes[n], d);
    if n == 0 {
      CleanNodeIsIndexed(nodes[0], ctx, constants, d);
    } else {
      assert nodes[1..][n - 1] == nodes[n];
      CleanIsIndexed(nodes[1..], ctx, constants + Produced(nodes[0]), d);
    }
  }

  lemma {:induction false} CleanNodeIsIndexed(node: Node, ctx: map<string, nat>, constants: set<string>, d: DynInput)
    requires CleanNode(node, ctx, constants) && NodeReadsInput(node, d)
    ensures d.name in ctx && ctx[d.name] == d.index
    decreases node
  {
    if OwnInput(node, |node.inputs|, d) {
      var i :| 0 <= i < |node.inputs| && Reads(node, i) && Dynamic(node.inputs[i]) && d == Ref(node.inputs[i]);
      assert CleanRef(node.inputs[i], ctx);
    } else {
      var s :| 0 <= s < |node.subgraphs| && ReadsInput(node.subgraphs[s].nodes, d);
      CleanIsIndexed(node.subgraphs[s].nodes, ctx, Inherited(constants, node.subgraphs[s]), d);
    }
  }

  /** A plan is as clean over the boundary names it reads as over all of them. */
  lemma {:induction false} CleanForReads(nodes: seq<Node>, names: map<string, nat>, read: map<string, nat>, constants: set<string>)
    requires Clean(nodes, names, constants)
    requires forall name {:trigger name in read} :: name in read ==> name in names && read[name] == names[name]
    requires forall d: DynInput {:trigger ReadsInput(nodes, d)} :: ReadsInput(nodes, d) ==> d.name in read
    ensures Clean(nodes, read, constants)
    decreases nodes
  {
    if nodes != [] {
      forall d: DynInput | NodeReadsInput(nodes[0], d) ensures d.name in read { assert ReadsInput(nodes, d); }
      CleanNodeForReads(nodes[0], names, read, constants);
      forall d: DynInput | ReadsInput(nodes[1..], d) ensures d.name in read {
        var n :| 0 <= n < |nodes[1..]| && NodeReadsInput(nodes[1..][n], d);
        assert nodes[n + 1] == nodes[1..][n] && ReadsInput(nodes, d);
      }
      CleanForReads(nodes[1..], names, read, constants + Produced(nodes[0]));
    }
  }

  lemma {:induction false} CleanNodeForReads(node: Node, names: map<string, nat>, read: map<string, nat>, constants: set<string>)
    requires CleanNode(node, names, constants)
    requires forall name {:trigger name in read} :: name in read ==> name in names && read[name] == names[name]
    requires forall d: DynInput {:trigger NodeReadsInput(node, d)} :: NodeReadsInput(node, d) ==> d.name in read
    ensures CleanNode(node, read, constants)
    decreases node
  {
    forall i | 0 <= i < |node.inputs| && Reads(node, i) ensures CleanRef(node.inputs[i], read) {
      assert CleanRef(node.inputs[i], names);
      if Dynamic(node.inputs[i]) {
        assert OwnInput(node, |node.inputs|, Ref(node.inputs[i])) && NodeReadsInput(node, Ref(node.inputs[i]));
      }
    }
    forall s | 0 <= s < |node.subgraphs|
      ensures Clean(node.subgraphs[s].nodes, read, Inherited(constants, node.subgraphs[s]))
    {
      forall d: DynInput | ReadsInput(node.subgraphs[s].nodes, d) ensures d.name in read {
        assert node.subgraphs[s] == node.subgraphs[s] && BodyReadsInput(node, |node.subgraphs|, d) && NodeReadsInput(node, d);
      }
      CleanForReads(node.subgraphs[s].nodes, names, read, Inherited(constants, node.subgraphs[s]));
    }
  }

  // ---- The eager answer and the compiled one ----------------------------------------------------

  function Observed(inputs: seq<DynInput>, w: World): (o: seq<(nat, seq<int>)>)
    ensures |o| == |inputs|
  {
    seq(|inputs|, i requires 0 <= i < |inputs| => (w.inputs(inputs[i].index).dtype, w.inputs(inputs[i].index).shape))
  }

  /** Empty or unrepresentable geometry is never traced. */
  predicate Traceable(inputs: seq<DynInput>, w: World) {
    forall i {:trigger inputs[i]} :: 0 <= i < |inputs| ==>
      var shape := w.inputs(inputs[i].index).shape;
      forall j {:trigger shape[j]} :: 0 <= j < |shape| ==> shape[j] != 0 && shape[j] <= INT32_MAX
  }

  /** A call is traceable exactly if no boundary input has an empty or an oversized dimension. */
  lemma {:induction false} TraceableMeans(inputs: seq<DynInput>, w: World)
    ensures Traceable(inputs, w) <==>
            forall input {:trigger input in inputs} :: input in inputs ==>
              forall d {:trigger d in w.inputs(input.index).shape} :: d in w.inputs(input.index).shape ==> d != 0 && d <= 2147483647
  {
    if Traceable(inputs, w) {
      forall input, d | input in inputs && d in w.inputs(input.index).shape ensures d != 0 && d <= 2147483647 {
        var i :| 0 <= i < |inputs| && inputs[i] == input;
        var j :| 0 <= j < |w.inputs(input.index).shape| && w.inputs(input.index).shape[j] == d;
      }
    } else {
      var i :| 0 <= i < |inputs|
               && exists j {:trigger w.inputs(inputs[i].index).shape[j]} :: 0 <= j < |w.inputs(inputs[i].index).shape|
                    && (w.inputs(inputs[i].index).shape[j] == 0 || w.inputs(inputs[i].index).shape[j] > INT32_MAX);
      var shape := w.inputs(inputs[i].index).shape;
      var j :| 0 <= j < |shape| && (shape[j] == 0 || shape[j] > INT32_MAX);
      assert inputs[i] in inputs && shape[j] in shape;
    }
  }

  function Outcome(env: Option<Env>, outputs: seq<string>): (answer: Option<seq<Value>>) {
    match env
    case None => None
    case Some(e) => Collect(e, outputs)
  }

  /** What translating and running the plan anew answers. */
  function Eager(k: Kernel, nodes: seq<Node>, outputs: seq<string>, w: World): (answer: Option<seq<Value>>)
    requires Arity(k)
  {
    Outcome(EvalNodes(k, nodes, w, map[]), outputs)
  }

  /** What the trace of `w0` answers on the inputs of `w`. */
  function Replayed(k: Kernel, nodes: seq<Node>, outputs: seq<string>, w0: World, w: World): (answer: Option<seq<Value>>)
    requires Arity(k)
  {
    Outcome(ReplayNodes(k, nodes, w0, map[], w, map[]), outputs)
  }

  /** What every plan satisfies by construction, given the assumptions on operators. */
  ghost predicate Plan(k: Kernel, nodes: seq<Node>, ctx: map<string, nat>, constants: set<string>) {
    Sound(k) && Clean(nodes, ctx, constants) && Flagged(nodes, constants) && constants !! ctx.Keys
  }

  lemma {:induction false} SameObserved(inputs: seq<DynInput>, ctx: map<string, nat>, w1: World, w2: World)
    requires Observed(inputs, w1) == Observed(inputs, w2)
    requires forall name {:trigger name in ctx} :: name in ctx ==> DynInput(name, ctx[name]) in inputs
    ensures SameInputShapes(ctx, w1, w2)
  {
    forall name | name in ctx ensures SameShape(w1.inputs(ctx[name]), w2.inputs(ctx[name])) {
      var i :| 0 <= i < |inputs| && inputs[i] == DynInput(name, ctx[name]);
      assert Observed(inputs, w1)[i] == Observed(inputs, w2)[i];
    }
  }

  /** Equal shape keys and equal host-value keys: the trace answers what eager would. */
  lemma {:induction false} EqualKeysReplay(
    k: Kernel, nodes: seq<Node>, ctx: map<string, nat>, constants: set<string>, inputs: seq<DynInput>,
    indices: seq<nat>, outputs: seq<string>, w0: World, w: World)
    requires Plan(k, nodes, ctx, constants) && Admitted(nodes)
    requires Observed(inputs, w0) == Observed(inputs, w)
    requires forall name {:trigger name in ctx} :: name in ctx ==> DynInput(name, ctx[name]) in inputs
    requires forall index: nat {:trigger Keyed(nodes, index)} :: Keyed(nodes, index) ==> index in indices
    requires var flow := AnyControlFlow(nodes);
             Key(nodes, flow, indices, w0).Some? && Key(nodes, flow, indices, w0) == Key(nodes, flow, indices, w)
    requires EvalNodes(k, nodes, w0, map[]).Some?
    ensures Replayed(k, nodes, outputs, w0, w) == Eager(k, nodes, outputs, w)
  {
    EqualKeysAgree(nodes, indices, w0, w);
    SameObserved(inputs, ctx, w0, w);
    ReplayIsEager(k, nodes, ctx, constants, w0, map[], w, map[]);
  }

  // ---- Tokens -----------------------------------------------------------------------------------

  /** At most sixteen keys, each with its own token from one up. */
  ghost predicate Tokens(specs: map<string, nat>) {
    && |specs| <= SPECIALIZATION_LIMIT
    && (forall key {:trigger specs[key]} :: key in specs ==> 1 <= specs[key] <= |specs|)
    && (forall a, b {:trigger specs[a], specs[b]} :: a in specs && b in specs && specs[a] == specs[b] ==> a == b)
  }

  /** The key of a call has a token, or needs none, or there is room for a new one. */
  predicate HasRoom(specs: map<string, nat>, key: string) {
    key == "" || key in specs || |specs| < SPECIALIZATION_LIMIT
  }

  /** The token a key has or would get; the empty key needs none. */
  function TokenFor(specs: map<string, nat>, key: string): (token: Option<nat>) {
    if key == "" then None
    else if key in specs then Some(specs[key])
    else Some(|specs| + 1)
  }

  function WithToken(specs: map<string, nat>, key: string): (more: map<string, nat>) {
    if key == "" || key in specs then specs else specs[key := |specs| + 1]
  }

  ghost predicate HasToken(specs: map<string, nat>, key: string, token: Option<nat>) {
    (key == "" || key in specs) && token == TokenFor(specs, key)
  }

  /** A new token is nobody else's, and no other key's token changes. */
  lemma {:induction false} NewToken(specs: map<string, nat>, key: string)
    requires Tokens(specs) && HasRoom(specs, key)
    ensures Tokens(WithToken(specs, key)) && HasToken(WithToken(specs, key), key, TokenFor(specs, key))
    ensures forall other: string, token: Option<nat> {:trigger HasToken(specs, other, token)} ::
              HasToken(specs, other, token) ==> HasToken(WithToken(specs, key), other, token)
  {
  }

  /** Two keys with one token are one key. */
  lemma {:induction false} TokenTellsKey(specs: map<string, nat>, a: string, b: string, token: Option<nat>)
    requires Tokens(specs) && HasToken(specs, a, token) && HasToken(specs, b, token)
    ensures a == b
  {
  }

  // ---- The slot ---------------------------------------------------------------------------------

  class GeneralSlot {
    const kernel: Kernel
    const nodes: seq<Node>
    const outputs: seq<string>
    const inputs: seq<DynInput>
    const boundary: seq<nat>
    const controlFlow: bool
    const enabled: bool
    const nativeOwner: bool
    ghost const marked: seq<Node>
    ghost const ctx: map<string, nat>
    ghost const constants: set<string>

    var specializations: map<string, nat>
    var attempted: bool
    var valid: bool
    var traces: map<ShapeKey, World>

    /** The host-value key of a call; empty means no token is needed. */
    ghost function HostKey(w: World): (key: Option<string>) {
      Key(nodes, controlFlow, boundary, w)
    }

    ghost predicate Valid()
      reads this
    {
      && Planned() && Stored()
      && (valid ==> attempted && enabled)
    }

    /** What the plan fixes once and for all. */
    ghost predicate Planned() {
      && Plan(kernel, nodes, ctx, constants) && nodes == Fenced(marked, nativeOwner)
      && enabled == GeneralEnabled(nodes) && controlFlow == AnyControlFlow(nodes)
      && (forall name {:trigger name in ctx} :: name in ctx ==> DynInput(name, ctx[name]) in inputs)
      && (forall index: nat {:trigger Keyed(nodes, index)} :: Keyed(nodes, index) ==> index in boundary)
    }

    /** What the calls so far have stored. */
    ghost predicate Stored()
      reads this`specializations, this`traces
    {
      Tokens(specializations) && AllRecorded(specializations, traces)
    }

    ghost predicate AllRecorded(specs: map<string, nat>, filed: map<ShapeKey, World>) {
      forall s {:trigger filed[s]} :: s in filed ==> Recorded(specs, s, filed[s])
    }

    /** A cached trace was captured in a call with the very key it is filed under. */
    ghost predicate Recorded(specs: map<string, nat>, s: ShapeKey, w0: World) {
      && enabled && s.inputs == Observed(inputs, w0)
      && HostKey(w0).Some? && HasToken(specs, HostKey(w0).value, s.token)
      && Captures(w0)
    }

    /** Capturing the graph on a call succeeds. */
    ghost predicate Captures(w: World) {
      Arity(Capturing(kernel)) && EvalNodes(Capturing(kernel), nodes, w, map[]).Some?
    }

    /** The shape key of a call, given the tokens handed out before it. */
    ghost function KeyOf(specs: map<string, nat>, w: World): (s: ShapeKey)
      requires HostKey(w).Some?
    {
      ShapeKey(Observed(inputs, w), TokenFor(specs, HostKey(w).value))
    }

    /** The closure is valid once the call has tried to compile it. */
    ghost predicate Compiles(faults: Faults)
      reads this`attempted, this`valid
    {
      if attempted then valid else inputs != [] && outputs != [] && !faults.compile
    }

    ghost predicate Filed(w: World)
      reads this`specializations, this`traces
    {
      HostKey(w).Some? && KeyOf(specializations, w) in traces
    }

    /** The call has a host-value key with a token, or room for one. */
    ghost predicate Keyable(w: World)
      reads this`specializations
    {
      && enabled && HostKey(w).Some?
      && (HostKey(w).value == "" || HostKey(w).value in specializations || |specializations| < 16)
    }

    /** When a call is answered from the cache: everything it needs is there and nothing fails. */
    ghost predicate Admits(w: World, faults: Faults)
      reads this
    {
      && Arity(kernel) && Keyable(w)
      && Compiles(faults) && Traceable(inputs, w)
      && (Filed(w) || (!faults.trace && Captures(w))) && !faults.evaluate
      && Eager(kernel, nodes, outputs, w).Some?
    }

    /** Mark the shape constants, fence the live values, and read off what a call must supply. */
    constructor (k: Kernel, raw: seq<Node>, outputNames: seq<string>, ghost names: map<string, nat>,
                 initializers: set<string>, native: bool)
      requires Sound(k) && initializers !! names.Keys
      requires Clean(Fenced(Marked(raw, initializers), native), names, initializers)
      ensures Valid() && kernel == k && outputs == outputNames && nodes == Fenced(Marked(raw, initializers), native)
      ensures specializations == map[] && traces == map[] && !attempted
    {
      var flagged := MarkShapeConstants(raw, initializers);
      var fenced, live := Fence(flagged, native);
      MarkedIsFlagged(raw, initializers);
      FencedFlagged(flagged, initializers, native);
      forall d: DynInput | ReadsInput(fenced, d) ensures d.name in names && names[d.name] == d.index {
        CleanIsIndexed(fenced, names, initializers, d);
      }
      ghost var read := map name | name in names && ReadsInput(fenced, DynInput(name, names[name])) :: names[name];
      CleanForReads(fenced, names, read, initializers);
      var dynamic := CollectInputs(fenced, [], names);
      var keyed := BoundaryShapeInputs(fenced);
      kernel, nodes, outputs := k, fenced, outputNames;
      inputs, boundary := dynamic, keyed;
      controlFlow, enabled, nativeOwner := AnyControlFlow(fenced), GeneralEnabled(fenced), native;
      marked, ctx, constants := flagged, read, initializers;
      specializations, attempted, valid, traces := map[], false, false, map[];
    }

    /**
     The token of a key: recorded, or new while there is room. Without room the call stays eager.
     */
    method Token(key: string) returns (token: Option<nat>, full: bool)
      requires Stored()
      modifies this`specializations
      ensures Stored()
      ensures full <==> key != "" && key !in old(specializations) && |old(specializations)| >= 16
      ensures |specializations| <= 16
      ensures !full ==> token == TokenFor(old(specializations), key)
      ensures specializations == if full then old(specializations) else WithToken(old(specializations), key)
    {
      if key == "" { return None, false; }
      if key in specializations { return Some(specializations[key]), false; }
      if |specializations| >= SPECIALIZATION_LIMIT { return None, true; }
      RecordedStay(specializations, traces, key);
      var number := |specializations| + 1;
      specializations := specializations[key := number];
      token, full := Some(number), false;
    }

    lemma RecordedStay(specs: map<string, nat>, filed: map<ShapeKey, World>, key: string)
      requires Tokens(specs) && HasRoom(specs, key) && AllRecorded(specs, filed)
      ensures Tokens(WithToken(specs, key)) && AllRecorded(WithToken(specs, key), filed)
    {
      NewToken(specs, key);
      forall s | s in filed ensures Recorded(WithToken(specs, key), s, filed[s]) {
        assert HasToken(specs, HostKey(filed[s]).value, s.token);
      }
    }

    /** Nothing is filed under a token that has not been handed out. */
    lemma FiledHasToken(specs: map<string, nat>, filed: map<ShapeKey, World>, w: World)
      requires Tokens(specs) && AllRecorded(specs, filed) && HostKey(w).Some? && KeyOf(specs, w) in filed
      ensures HasToken(specs, HostKey(w).value, KeyOf(specs, w).token)
    {
      var host := HostKey(filed[KeyOf(specs, w)]).value;
      assert HasToken(specs, host, KeyOf(specs, w).token);
    }

    /** Compile the closure once; a plan without inputs or outputs, or a failure, leaves it invalid. */
    method BuildClosure(faults: Faults)
      requires Valid() && enabled
      modifies this`attempted, this`valid
      ensures Valid() && attempted
      ensures valid == if old(attempted) then old(valid) else inputs != [] && outputs != [] && !faults.compile
    {
      if !attempted {
        attempted := true;
        valid := inputs != [] && outputs != [] && !faults.compile;
      }
    }

    /** Capture a call whose shape key is new; a failed capture closes the route. */
    method FileTrace(s: ShapeKey, w: World, faults: Faults)
      requires Valid() && valid && s.inputs == Observed(inputs, w)
      requires HostKey(w).Some? && HasToken(specializations, HostKey(w).value, s.token)
      modifies this`valid, this`traces
      ensures Valid()
      ensures valid <==> s in old(traces) || (!faults.trace && Captures(w))
      ensures traces == if valid && s !in old(traces) then old(traces)[s := w] else old(traces)
    {
      if s in traces { return; }
      CapturingArity(kernel);
      if faults.trace || EvalNodes(Capturing(kernel), nodes, w, map[]).None? {
        valid := false;
      } else {
        traces := traces[s := w];
      }
    }

    /** The shape key of a call, or nothing if its host values cannot be read or there is no room. */
    method Specialize(w: World) returns (key: Option<ShapeKey>)
      requires Stored()
      modifies this`specializations
      ensures Stored()
      ensures key == if HostKey(w).Some? && HasRoom(old(specializations), HostKey(w).value)
                     then Some(KeyOf(old(specializations), w)) else None
      ensures specializations == if key.Some? then WithToken(old(specializations), HostKey(w).value)
                                 else old(specializations)
    {
      var host := BuildKey(nodes, controlFlow, boundary, w);
      if host.None? { return None; }
      var token, full := Token(host.value);
      key := if full then None else Some(ShapeKey(Observed(inputs, w), token));
    }

    /** Apply the trace filed under a call's shape key. */
    method Apply(s: ShapeKey, w: World, faults: Faults) returns (answer: Answer)
      requires Valid() && s in traces && s.inputs == Observed(inputs, w)
      requires HostKey(w).Some? && HasToken(specializations, HostKey(w).value, s.token)
      modifies this`valid
      ensures Valid() && valid == (old(valid) && answer.Handled?)
      ensures answer.Handled? <==> !faults.evaluate && Eager(kernel, nodes, outputs, w).Some?
      ensures answer.Handled? ==> Eager(kernel, nodes, outputs, w) == Some(answer.outputs)
    {
      var replayed := Replayed(kernel, nodes, outputs, traces[s], w);
      assert replayed == Eager(kernel, nodes, outputs, w) by { ReplaysEager(s, w); }
      if faults.evaluate || replayed.None? {
        valid, answer := false, Fallback;
      } else {
        answer := Handled(replayed.value);
      }
    }

    /** Serve a call under its shape key: compile once, trace a new key, apply. */
    method Serve(s: ShapeKey, w: World, faults: Faults) returns (answer: Answer)
      requires Valid() && enabled && s.inputs == Observed(inputs, w)
      requires HostKey(w).Some? && HasToken(specializations, HostKey(w).value, s.token)
      modifies this`attempted, this`valid, this`traces
      ensures Valid()
      ensures answer.Handled? <==>
              && old(Compiles(faults)) && Traceable(inputs, w) && (s in old(traces) || (!faults.trace && Captures(w)))
              && !faults.evaluate && Eager(kernel, nodes, outputs, w).Some?
      ensures answer.Handled? ==> Eager(kernel, nodes, outputs, w) == Some(answer.outputs) && s in traces
      ensures traces == old(traces) || (s !in old(traces) && traces == old(traces)[s := w])
    {
      answer := Fallback;
      BuildClosure(faults);
      if !valid || !Traceable(inputs, w) { return; }
      FileTrace(s, w, faults);
      if !valid { return; }
      answer := Apply(s, w, faults);
    }

    /** Answer a call from the cache, tracing it first if its shape key is new; or decline. */
    method TryCompiled(w: World, faults: Faults) returns (answer: Answer)
      requires Valid()
      modifies this
      ensures Valid()
      ensures answer.Handled? <==> old(Admits(w, faults))
      ensures answer.Handled? ==> Eager(kernel, nodes, outputs, w) == Some(answer.outputs)
      ensures answer.Handled? ==> KeyOf(old(specializations), w) in traces
      ensures specializations == if old(Keyable(w)) then WithToken(old(specializations), HostKey(w).value)
                                 else old(specializations)
      ensures traces == old(traces) || (old(Keyable(w) && !Filed(w)) && traces == old(traces)[KeyOf(old(specializations), w) := w])
    {
      answer := Fallback;
      if !enabled { return; }
      var key := Specialize(w);
      if key.None? { return; }
      NewToken(old(specializations), HostKey(w).value);
      answer := Serve(key.value, w, faults);
    }

    /** A call answered once is found again: its key is filed, and filed keys hand out no new token. */
    lemma AnsweredIsFiled(specs: map<string, nat>, filed: map<ShapeKey, World>, w: World)
      requires Tokens(specs) && HostKey(w).Some? && HasRoom(specs, HostKey(w).value)
      ensures KeyOf(WithToken(specs, HostKey(w).value), w) == KeyOf(specs, w)
      ensures AllRecorded(specs, filed) && KeyOf(specs, w) in filed ==> WithToken(specs, HostKey(w).value) == specs
    {
      NewToken(specs, HostKey(w).value);
      if AllRecorded(specs, filed) && KeyOf(specs, w) in filed { FiledHasToken(specs, filed, w); }
    }

    /** A trace filed under a call's key was made with the call's own host values. */
    lemma ReplaysEager(s: ShapeKey, w: World)
      requires Valid() && s in traces
      requires s.inputs == Observed(inputs, w) && HostKey(w).Some?
      requires HasToken(specializations, HostKey(w).value, s.token)
      ensures HostKey(traces[s]) == HostKey(w)
      ensures SameWalk(nodes, traces[s], w) && SameGuarded(nodes, traces[s], w)
      ensures Replayed(kernel, nodes, outputs, traces[s], w) == Eager(kernel, nodes, outputs, w)
    {
      var w0 := traces[s];
      assert Recorded(specializations, s, w0);
      TokenTellsKey(specializations, HostKey(w0).value, HostKey(w).value, s.token);
      EqualKeysAgree(nodes, boundary, w0, w);
      CapturedIsAdmitted(kernel, marked, nativeOwner, w0, map[]);
      CaptureIsEager(kernel, nodes, w0, map[]);
      EqualKeysReplay(kernel, nodes, ctx, constants, inputs, boundary, outputs, w0, w);
    }

    /** One call of the plan: compiled when possible, else eager. Either way the eager answer. */
    method Compute(w: World, faults: Faults) returns (answer: Option<seq<Value>>)
      requires Valid()
      modifies this
      ensures Valid() && answer == Eager(kernel, nodes, outputs, w)
    {
      var compiled := TryCompiled(w, faults);
      match compiled
      case Handled(values) => answer := Some(values);
      case Fallback => answer := Eager(kernel, nodes, outputs, w);
    }
  }
}
