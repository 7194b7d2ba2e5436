/**
 Two runs of a plan with equal input shapes, equal guarded parameters and equal branch decisions
 agree on every shape and on every shape constant; so a trace of one replays the other.
 */
module Noninterference {
  import opened Wrappers
  import opened PlanNodes
  import opened ShapeConstants
  import opened ShapeFences

  type Env = map<string, Value>

  /** One call: the boundary inputs by index, and the state random operators draw from. */
  datatype World = World(inputs: nat -> Value, noise: nat)

  datatype Arg = Missing | Given(value: Value)

  /** What the registry's handlers compute for operators without bodies. */
  type Kernel = (Node, seq<Arg>, nat) -> Option<seq<Value>>

  predicate SameShape(a: Value, b: Value) { a.dtype == b.dtype && a.shape == b.shape }

  predicate SameArg(a: Arg, b: Arg) {
    match (a, b)
    case (Missing, Missing) => true
    case (Given(x), Given(y)) => SameShape(x, y)
    case _ => false
  }

  ghost predicate SameArgs(a: seq<Arg>, b: seq<Arg>) {
    |a| == |b| && forall i {:trigger a[i]} {:trigger b[i]} :: 0 <= i < |a| ==> SameArg(a[i], b[i])
  }

  ghost predicate SameHostArgs(node: Node, a: seq<Arg>, b: seq<Arg>) {
    forall i {:trigger i in HostParameters(node)} :: i in HostParameters(node) && i < |a| && i < |b| ==> a[i] == b[i]
  }

  ghost predicate SameShapes(a: seq<Value>, b: seq<Value>) {
    |a| == |b| && forall i {:trigger a[i]} {:trigger b[i]} :: 0 <= i < |a| ==> SameShape(a[i], b[i])
  }

  /** Inputs the plan knows to be constant have equal arguments. */
  ghost predicate SameConstants(node: Node, a: seq<Arg>, b: seq<Arg>) {
    forall i {:trigger node.inputs[i]} ::
      0 <= i < |node.inputs| && i < |a| && i < |b| && ConstantRef(node.inputs[i]) ==> a[i] == b[i]
  }

  // ---- What is assumed of the registered operators ----------------------------------------------

  ghost predicate Arity(k: Kernel) {
    forall node: Node, a: seq<Arg>, n: nat {:trigger k(node, a, n)} ::
      k(node, a, n).Some? ==> |k(node, a, n).value| == |node.outputs|
  }

  /** The operators a compiled route may hold: classified for it, not fenced, not data-dependent. */
  predicate Capturable(node: Node) {
    node.safety != EagerOnly && !UnsafeHere(node) && !LiveHere(node)
  }

  /** Output shapes of capturable operators depend on input shapes, constants and host parameters only. */
  ghost predicate ShapesFollow(k: Kernel) {
    forall node: Node, a: seq<Arg>, m: nat, b: seq<Arg>, n: nat {:trigger k(node, a, m), k(node, b, n)} ::
      Capturable(node) && SameArgs(a, b) && SameConstants(node, a, b) && SameHostArgs(node, a, b)
      && k(node, a, m).Some? && k(node, b, n).Some? ==>
        SameShapes(k(node, a, m).value, k(node, b, n).value)
  }

  /** Shape and Size look at shapes only. */
  ghost predicate ShapeOpsFollow(k: Kernel) {
    forall node: Node, a: seq<Arg>, m: nat, b: seq<Arg>, n: nat {:trigger k(node, a, m), k(node, b, n)} ::
      (node.op == Shape || node.op == Size) && SameArgs(a, b) ==> k(node, a, m) == k(node, b, n)
  }

  /** Only random operators confined to the eager route depend on the noise. */
  ghost predicate Deterministic(k: Kernel) {
    forall node: Node, a: seq<Arg>, m: nat, n: nat {:trigger k(node, a, m), k(node, a, n)} ::
      node.safety != EagerOnly || !IsRandom(node.op) ==> k(node, a, m) == k(node, a, n)
  }

  ghost predicate Sound(k: Kernel) {
    Arity(k) && ShapesFollow(k) && ShapeOpsFollow(k) && Deterministic(k)
  }

  // ---- Running a plan ---------------------------------------------------------------------------

  function Resolve(r: TensorRef, w: World, env: Env): (arg: Option<Arg>) {
    match r.source
    case Absent => Some(Missing)
    case Initializer => Some(Given(r.init))
    case CtxInput =>
      if r.constant then Some(Given(r.init))
      else if r.name in env then Some(Given(env[r.name]))
      else Some(Given(w.inputs(r.ctxIndex)))
    case Intermediate => if r.name in env then Some(Given(env[r.name])) else None
  }

  /** CastLike uses the declared type of its target, never the tensor. */
  predicate Reads(node: Node, i: nat) {
    node.op != CastLike || i != 1
  }

  function ResolveInput(node: Node, i: nat, w: World, env: Env): (arg: Option<Arg>)
    requires i < |node.inputs|
  {
    if Reads(node, i) then Resolve(node.inputs[i], w, env) else Some(Missing)
  }

  function Args(node: Node, w: World, env: Env): (r: Option<seq<Arg>>)
    ensures r.Some? ==> |r.value| == |node.inputs|
  {
    if forall i {:trigger ResolveInput(node, i, w, env)} :: 0 <= i < |node.inputs| ==> ResolveInput(node, i, w, env).Some?
    then Some(seq(|node.inputs|, i requires 0 <= i < |node.inputs| =>
           assert ResolveInput(node, i, w, env).Some?; ResolveInput(node, i, w, env).value))
    else None
  }

  function Truth(v: Value): (taken: Option<bool>) { if v.data == [] then None else Some(v.data[0] != 0) }

  function Bind(env: Env, names: seq<string>, values: seq<Value>): (r: Env)
    requires |names| == |values|
    decreases names
  {
    if names == [] then env
    else Bind(if names[0] == "" then env else env[names[0] := values[0]], names[1..], values[1..])
  }

  function Collect(env: Env, names: seq<string>): (r: Option<seq<Value>>)
    ensures r.Some? ==> |r.value| == |names|
  {
    if names == [] then Some([])
    else if names[0] !in env then None
    else
      match Collect(env, names[1..])
      case None => None
      case Some(more) => Some([env[names[0]]] + more)
  }

  function BranchRole(taken: bool): (role: Role) { if taken then ThenBranch else ElseBranch }

  function Condition(node: Node, w: World, env: Env): (taken: Option<bool>) {
    if node.inputs == [] then None
    else
      match Resolve(node.inputs[0], w, env)
      case Some(Given(v)) => Truth(v)
      case _ => None
  }

  function EvalNodes(k: Kernel, nodes: seq<Node>, w: World, env: Env): (after: Option<Env>)
    requires Arity(k)
    decreases nodes
  {
    if nodes == [] then Some(env)
    else
      match EvalNode(k, nodes[0], w, env)
      case None => None
      case Some(next) => EvalNodes(k, nodes[1..], w, next)
  }

  /** The environment after one node; a body runs in its own scope and leaves nothing behind. */
  function EvalNode(k: Kernel, node: Node, w: World, env: Env): (after: Option<Env>)
    requires Arity(k)
    decreases node
  {
    if node.op == If then
      match Condition(node, w, env)
      case None => None
      case Some(taken) =>
        var b := Body(node.subgraphs, BranchRole(taken));
        if b == |node.subgraphs| || node.subgraphs[b].inputNames != [] then None
        else
          match EvalNodes(k, node.subgraphs[b].nodes, w, env)
          case None => None
          case Some(inner) =>
            match Collect(inner, node.subgraphs[b].outputNames)
            case None => None
            case Some(values) => if |values| != |node.outputs| then None else Some(Bind(env, node.outputs, values))
    else
      match Args(node, w, env)
      case None => None
      case Some(args) =>
        match k(node, args, w.noise)
        case None => None
        case Some(values) => Some(Bind(env, node.outputs, values))
  }

  // ---- Well-formed plans ------------------------------------------------------------------------

  /**
   Names are used once: an output is neither a boundary input nor a constant of its scope, each
   dynamic boundary name has one index, bodies name what they return, and If is the only operator
   with bodies.
   */
  ghost predicate Clean(nodes: seq<Node>, ctx: map<string, nat>, constants: set<string>)
    decreases nodes
  {
    nodes == [] ||
    (CleanNode(nodes[0], ctx, constants) && Clean(nodes[1..], ctx, constants + Produced(nodes[0])))
  }

  ghost predicate CleanNode(node: Node, ctx: map<string, nat>, constants: set<string>)
    decreases node
  {
    && (forall i {:trigger node.inputs[i]} :: 0 <= i < |node.inputs| && Reads(node, i) ==> CleanRef(node.inputs[i], ctx))
    && (forall name {:trigger name in node.outputs} :: name in node.outputs && name != "" ==>
          name !in ctx && name !in constants)
    && node.op != Loop && node.op != Scan && (node.op != If ==> node.subgraphs == [])
    && (forall s {:trigger node.subgraphs[s]} :: 0 <= s < |node.subgraphs| ==>
          && Clean(node.subgraphs[s].nodes, ctx, Inherited(constants, node.subgraphs[s]))
          && forall name {:trigger name in node.subgraphs[s].outputNames} ::
               name in node.subgraphs[s].outputNames ==> name != "" && name !in ctx)
  }

  ghost predicate CleanRef(r: TensorRef, ctx: map<string, nat>) {
    && (r.constant ==> r.source == CtxInput)
    && (r.source == Intermediate ==> r.name != "" && r.name !in ctx)
    && (r.source == CtxInput && !r.constant ==> r.name in ctx && ctx[r.name] == r.ctxIndex)
  }

  // ---- What two calls must agree on -------------------------------------------------------------

  ghost predicate SameInputShapes(ctx: map<string, nat>, w1: World, w2: World) {
    forall name {:trigger ctx[name]} :: name in ctx ==> SameShape(w1.inputs(ctx[name]), w2.inputs(ctx[name]))
  }

  predicate KeyedParameter(node: Node, i: nat) {
    && i in HostParameters(node) && i < |node.inputs|
    && !node.inputs[i].constant && !node.inputs[i].shapeConst && GuardedBoundary(node, node.inputs[i])
  }

  /** Every guarded boundary parameter has the same value. */
  ghost predicate SameGuarded(nodes: seq<Node>, w1: World, w2: World)
    decreases nodes
  {
    nodes == [] || (SameGuardedNode(nodes[0], w1, w2) && SameGuarded(nodes[1..], w1, w2))
  }

  ghost predicate SameGuardedNode(node: Node, w1: World, w2: World)
    decreases node
  {
    && (forall i: nat {:trigger KeyedParameter(node, i)} :: KeyedParameter(node, i) ==>
          w1.inputs(node.inputs[i].ctxIndex) == w2.inputs(node.inputs[i].ctxIndex))
    && (forall s {:trigger node.subgraphs[s]} :: 0 <= s < |node.subgraphs| ==>
          SameGuarded(node.subgraphs[s].nodes, w1, w2))
  }

  /** A control-flow scalar the key walk can read on the host. */
  function HostValue(r: TensorRef, w: World): (v: Option<Value>) {
    match r.source
    case Initializer => Some(r.init)
    case CtxInput => Some(if r.constant then r.init else w.inputs(r.ctxIndex))
    case _ => None
  }

  /** The first element of an input the key walk can read on the host. */
  function HostScalar(node: Node, i: nat, w: World): (scalar: Option<int>) {
    if i >= |node.inputs| then None
    else
      match HostValue(node.inputs[i], w)
      case None => None
      case Some(v) => if v.data == [] then None else Some(v.data[0])
  }

  function Decision(node: Node, w: World): (taken: Option<bool>) {
    match HostScalar(node, 0, w)
    case None => None
    case Some(c) => Some(c != 0)
  }

  /** Both calls take the same branches, and enter the same loops for the same number of trips. */
  ghost predicate SameWalk(nodes: seq<Node>, w1: World, w2: World)
    decreases nodes
  {
    nodes == [] || (SameWalkNode(nodes[0], w1, w2) && SameWalk(nodes[1..], w1, w2))
  }

  ghost predicate SameWalkNode(node: Node, w1: World, w2: World)
    decreases node
  {
    match node.op
    case If =>
      var c1, c2 := HostScalar(node, 0, w1), HostScalar(node, 0, w2);
      && c1.Some? && c2.Some? && (c1.value != 0 <==> c2.value != 0)
      && SameWalkBody(node, if c1.value != 0 then ThenBranch else ElseBranch, w1, w2)
    case Loop =>
      var n1, n2 := HostScalar(node, 0, w1), HostScalar(node, 0, w2);
      var c1, c2 := HostScalar(node, 1, w1), HostScalar(node, 1, w2);
      && n1.Some? && n1 == n2 && c1.Some? && c2.Some? && (c1.value != 0 <==> c2.value != 0)
      && (c1.value != 0 && n1.value > 0 ==> SameWalkBody(node, LoopBody, w1, w2))
    case Scan => SameWalkBody(node, LoopBody, w1, w2)
    case _ => true
  }

  ghost predicate SameWalkBody(node: Node, role: Role, w1: World, w2: World)
    decreases node, 0
  {
    var b := Body(node.subgraphs, role);
    b < |node.subgraphs| ==> SameWalk(node.subgraphs[b].nodes, w1, w2)
  }

  /** Two environments that agree on shapes, and on the values of the constants. */
  ghost predicate Related(e1: Env, e2: Env, constants: set<string>) {
    && e1.Keys == e2.Keys
    && forall name {:trigger e1[name]} {:trigger e2[name]} :: name in e1.Keys ==>
         SameShape(e1[name], e2[name]) && (name in constants ==> e1[name] == e2[name])
  }

  /** The two calls as far as the plan can tell them apart. */
  ghost predicate Alike(ctx: map<string, nat>, constants: set<string>, w1: World, e1: Env, w2: World, e2: Env) {
    && SameInputShapes(ctx, w1, w2) && Related(e1, e2, constants)
    && e1.Keys !! ctx.Keys && constants !! ctx.Keys
  }

  // ---- One node ---------------------------------------------------------------------------------

  lemma {:induction false} ResolveAlike(
    r: TensorRef, ctx: map<string, nat>, constants: set<string>, w1: World, e1: Env, w2: World, e2: Env)
    requires CleanRef(r, ctx) && Alike(ctx, constants, w1, e1, w2, e2) && r == MarkedRef(r, constants)
    ensures Resolve(r, w1, e1).Some? <==> Resolve(r, w2, e2).Some?
    ensures Resolve(r, w1, e1).Some? ==> SameArg(Resolve(r, w1, e1).value, Resolve(r, w2, e2).value)
    ensures ConstantRef(r) ==> Resolve(r, w1, e1) == Resolve(r, w2, e2)
  {
    match r.source
    case Absent =>
    case Initializer =>
    case CtxInput =>
      if !r.constant { assert SameShape(w1.inputs(ctx[r.name]), w2.inputs(ctx[r.name])); }
    case Intermediate =>
      if r.name in e1 { assert SameShape(e1[r.name], e2[r.name]); }
  }

  lemma {:induction false} InputAlike(
    node: Node, i: nat, ctx: map<string, nat>, constants: set<string>, w1: World, e1: Env, w2: World, e2: Env)
    requires i < |node.inputs|
    requires CleanNode(node, ctx, constants) && FlaggedNode(node, constants) && Alike(ctx, constants, w1, e1, w2, e2)
    ensures ResolveInput(node, i, w1, e1).Some? <==> ResolveInput(node, i, w2, e2).Some?
    ensures ResolveInput(node, i, w1, e1).Some? ==>
              SameArg(ResolveInput(node, i, w1, e1).value, ResolveInput(node, i, w2, e2).value)
    ensures ConstantRef(node.inputs[i]) ==> ResolveInput(node, i, w1, e1) == ResolveInput(node, i, w2, e2)
  {
    if Reads(node, i) { ResolveAlike(node.inputs[i], ctx, constants, w1, e1, w2, e2); }
  }

  lemma {:induction false} ArgsAlike(
    node: Node, ctx: map<string, nat>, constants: set<string>, w1: World, e1: Env, w2: World, e2: Env)
    requires CleanNode(node, ctx, constants) && FlaggedNode(node, constants) && Alike(ctx, constants, w1, e1, w2, e2)
    ensures Args(node, w1, e1).Some? <==> Args(node, w2, e2).Some?
    ensures Args(node, w1, e1).Some? ==> SameArgs(Args(node, w1, e1).value, Args(node, w2, e2).value)
    ensures Args(node, w1, e1).Some? ==>
              forall i {:trigger Args(node, w1, e1).value[i]} :: 0 <= i < |node.inputs| && ConstantRef(node.inputs[i]) ==>
                Args(node, w1, e1).value[i] == Args(node, w2, e2).value[i]
  {
    forall i | 0 <= i < |node.inputs|
      ensures ResolveInput(node, i, w1, e1).Some? <==> ResolveInput(node, i, w2, e2).Some?
      ensures ResolveInput(node, i, w1, e1).Some? ==>
                SameArg(ResolveInput(node, i, w1, e1).value, ResolveInput(node, i, w2, e2).value)
      ensures ConstantRef(node.inputs[i]) ==> ResolveInput(node, i, w1, e1) == ResolveInput(node, i, w2, e2)
    {
      InputAlike(node, i, ctx, constants, w1, e1, w2, e2);
    }
  }

  /** A host parameter is constant, or guarded and keyed: either way both calls have its value. */
  lemma {:induction false} HostArgsEqual(
    node: Node, ctx: map<string, nat>, constants: set<string>, w1: World, e1: Env, w2: World, e2: Env)
    requires CleanNode(node, ctx, constants) && FlaggedNode(node, constants) && Alike(ctx, constants, w1, e1, w2, e2)
    requires !ReadsUnguarded(node, true) && SameGuardedNode(node, w1, w2)
    requires Args(node, w1, e1).Some? && Args(node, w2, e2).Some?
    ensures SameHostArgs(node, Args(node, w1, e1).value, Args(node, w2, e2).value)
  {
    var a, b := Args(node, w1, e1).value, Args(node, w2, e2).value;
    ArgsAlike(node, ctx, constants, w1, e1, w2, e2);
    forall i | i in HostParameters(node) && i < |a| && i < |b| ensures a[i] == b[i] {
      var r := node.inputs[i];
      assert !Unguarded(node, r, true);
      if !ConstantRef(r) {
        assert KeyedParameter(node, i);
        assert Reads(node, i) ==> CleanRef(r, ctx);
        assert ResolveInput(node, i, w1, e1).Some? && ResolveInput(node, i, w2, e2).Some?;
      }
    }
  }

  lemma {:induction false} BindAlike(e1: Env, e2: Env, constants: set<string>, names: seq<string>, v1: seq<Value>,
                                     v2: seq<Value>)
    requires Related(e1, e2, constants) && |names| == |v1| && SameShapes(v1, v2)
    requires forall name {:trigger name in names} :: name in names && name != "" ==> name !in constants
    ensures Related(Bind(e1, names, v1), Bind(e2, names, v2), constants)
    decreases names
  {
    if names != [] {
      var f1 := if names[0] == "" then e1 else e1[names[0] := v1[0]];
      var f2 := if names[0] == "" then e2 else e2[names[0] := v2[0]];
      assert SameShape(v1[0], v2[0]) && names[0] in names;
      forall name | name in names[1..] && name != "" ensures name !in constants { assert name in names; }
      BindAlike(f1, f2, constants, names[1..], v1[1..], v2[1..]);
    }
  }

  lemma {:induction false} BindEqual(e1: Env, e2: Env, constants: set<string>, names: seq<string>, v: seq<Value>)
    requires Related(e1, e2, constants) && |names| == |v|
    ensures Related(Bind(e1, names, v), Bind(e2, names, v), constants + (set name | name in names && name != ""))
    decreases names
  {
    if names == [] {
      assert constants + (set name | name in names && name != "") == constants;
    } else {
      var f1 := if names[0] == "" then e1 else e1[names[0] := v[0]];
      var f2 := if names[0] == "" then e2 else e2[names[0] := v[0]];
      var more := if names[0] == "" then constants else constants + {names[0]};
      assert Related(f1, f2, more);
      BindEqual(f1, f2, more, names[1..], v[1..]);
      assert constants + (set name | name in names && name != "")
          == more + (set name | name in names[1..] && name != "");
    }
  }

  lemma {:induction false} BindKeys(env: Env, names: seq<string>, values: seq<Value>, name: string)
    requires |names| == |values|
    ensures name in Bind(env, names, values) <==> name in env || (name in names && name != "")
    decreases names
  {
    if names != [] {
      BindKeys(if names[0] == "" then env else env[names[0] := values[0]], names[1..], values[1..], name);
      assert name in names <==> name == names[0] || name in names[1..];
    }
  }

  lemma {:induction false} CollectAlike(e1: Env, e2: Env, constants: set<string>, names: seq<string>)
    requires Related(e1, e2, constants)
    ensures Collect(e1, names).Some? <==> Collect(e2, names).Some?
    ensures Collect(e1, names).Some? ==> SameShapes(Collect(e1, names).value, Collect(e2, names).value)
  {
    if names != [] && names[0] in e1 {
      assert SameShape(e1[names[0]], e2[names[0]]);
      CollectAlike(e1, e2, constants, names[1..]);
    }
  }

  /** The results of an operator without bodies. */
  lemma {:induction false} KernelAlike(
    k: Kernel, node: Node, ctx: map<string, nat>, constants: set<string>, w1: World, e1: Env, w2: World, e2: Env)
    requires Sound(k) && AdmittedNode(node) && node.subgraphs == []
    requires CleanNode(node, ctx, constants) && FlaggedNode(node, constants) && Alike(ctx, constants, w1, e1, w2, e2)
    requires SameGuardedNode(node, w1, w2)
    requires Args(node, w1, e1).Some? && Args(node, w2, e2).Some?
    ensures var v1, v2 := k(node, Args(node, w1, e1).value, w1.noise), k(node, Args(node, w2, e2).value, w2.noise);
            v1.Some? && v2.Some? ==> SameShapes(v1.value, v2.value) && (Produced(node) != {} ==> v1 == v2)
  {
    var a, b := Args(node, w1, e1).value, Args(node, w2, e2).value;
    ArgsAlike(node, ctx, constants, w1, e1, w2, e2);
    HostArgsEqual(node, ctx, constants, w1, e1, w2, e2);
    if LiveHere(node) {
      assert a == b by {
        forall i | 0 <= i < 3 ensures a[i] == b[i] { assert i in HostParameters(node); }
      }
      assert k(node, a, w1.noise) == k(node, a, w2.noise);
    } else if node.op != Shape && node.op != Size && Produced(node) != {} {
      assert a == b by {
        forall i | 0 <= i < |node.inputs| ensures a[i] == b[i] { assert ConstantRef(node.inputs[i]); }
      }
      assert k(node, a, w1.noise) == k(node, a, w2.noise);
    }
  }

  // ---- Whole plans ------------------------------------------------------------------------------

  /** Admitted plans: open to the general route, and no live Tile is left to run. */
  ghost predicate Admitted(nodes: seq<Node>) {
    GeneralEnabled(nodes) && forall n {:trigger nodes[n]} :: 0 <= n < |nodes| ==> Unfenced(nodes[n])
  }

  /** A node the fences spared, but for a Range whose bounds are constants of the call. */
  predicate Unfenced(node: Node) {
    !LiveTile(node) && !LiveInside(node)
  }

  ghost predicate AdmittedNode(node: Node) {
    !GeneralUnsafe(node) && !ReadsUnguarded(node, true) && NodeShapeKeyed(node) && Unfenced(node)
  }

  lemma {:induction false} AdmittedTail(nodes: seq<Node>)
    requires Admitted(nodes) && nodes != []
    ensures AdmittedNode(nodes[0]) && Admitted(nodes[1..])
  {
    assert !GeneralUnsafe(nodes[0]) && !ReadsUnguarded(nodes[0], true) && NodeShapeKeyed(nodes[0]);
    forall n | 0 <= n < |nodes| - 1
      ensures !GeneralUnsafe(nodes[1..][n]) && !ReadsUnguarded(nodes[1..][n], true)
      ensures NodeShapeKeyed(nodes[1..][n]) && Unfenced(nodes[1..][n])
    {
      assert nodes[1..][n] == nodes[n + 1];
    }
  }

  lemma {:induction false} AdmittedBody(node: Node, s: nat)
    requires AdmittedNode(node) && s < |node.subgraphs|
    ensures Admitted(node.subgraphs[s].nodes)
  {
    var nodes := node.subgraphs[s].nodes;
    assert !AnyUnsafe(nodes) && !AnyUnguarded(nodes, true) && ShapeKeyedSupported(nodes) && !AnyLive(nodes);
    forall n | 0 <= n < |nodes| ensures Unfenced(nodes[n]) { assert !LiveHere(nodes[n]) && !LiveInside(nodes[n]); }
  }

  /** The constants after a plan. */
  function ConstantsAfter(nodes: seq<Node>, constants: set<string>): (names: set<string>) {
    if nodes == [] then constants else ConstantsAfter(nodes[1..], constants + Produced(nodes[0]))
  }

  lemma {:induction false} ConditionIsDecision(node: Node, ctx: map<string, nat>, constants: set<string>, w: World, env: Env)
    requires CleanNode(node, ctx, constants) && node.op == If && env.Keys !! ctx.Keys && Decision(node, w).Some?
    ensures Condition(node, w, env) == Decision(node, w)
  {
    assert Reads(node, 0);
    assert CleanRef(node.inputs[0], ctx);
  }

  lemma {:induction false} FewerConstants(
    ctx: map<string, nat>, constants: set<string>, fewer: set<string>, w1: World, e1: Env, w2: World, e2: Env)
    requires Alike(ctx, constants, w1, e1, w2, e2) && fewer <= constants
    ensures Alike(ctx, fewer, w1, e1, w2, e2)
  {
  }

  ghost predicate Comparable(
    k: Kernel, nodes: seq<Node>, ctx: map<string, nat>, constants: set<string>, w1: World, e1: Env, w2: World, e2: Env)
  {
    && Sound(k) && Clean(nodes, ctx, constants) && Flagged(nodes, constants) && Admitted(nodes)
    && Alike(ctx, constants, w1, e1, w2, e2) && SameGuarded(nodes, w1, w2) && SameWalk(nodes, w1, w2)
  }

  ghost predicate ComparableNode(
    k: Kernel, node: Node, ctx: map<string, nat>, constants: set<string>, w1: World, e1: Env, w2: World, e2: Env)
  {
    && Sound(k) && CleanNode(node, ctx, constants) && FlaggedNode(node, constants) && AdmittedNode(node)
    && Alike(ctx, constants, w1, e1, w2, e2) && SameGuardedNode(node, w1, w2) && SameWalkNode(node, w1, w2)
  }

  lemma {:induction false} BranchComparable(
    k: Kernel, node: Node, ctx: map<string, nat>, constants: set<string>, w1: World, e1: Env, w2: World, e2: Env)
    requires ComparableNode(k, node, ctx, constants, w1, e1, w2, e2) && node.op == If
    ensures Decision(node, w1).Some?
    ensures Condition(node, w1, e1) == Condition(node, w2, e2) == Decision(node, w1)
    ensures var b := Body(node.subgraphs, BranchRole(Decision(node, w1).value));
            b < |node.subgraphs| ==>
              Comparable(k, node.subgraphs[b].nodes, ctx, Inherited(constants, node.subgraphs[b]), w1, e1, w2, e2)
  {
    ConditionIsDecision(node, ctx, constants, w1, e1);
    ConditionIsDecision(node, ctx, constants, w2, e2);
    assert SameWalkBody(node, BranchRole(Decision(node, w1).value), w1, w2);
    var b := Body(node.subgraphs, BranchRole(Decision(node, w1).value));
    if b < |node.subgraphs| {
      var body := node.subgraphs[b];
      AdmittedBody(node, b);
      FewerConstants(ctx, constants, Inherited(constants, body), w1, e1, w2, e2);
      assert Clean(body.nodes, ctx, Inherited(constants, body));
      assert Flagged(body.nodes, Inherited(constants, body));
      assert SameGuarded(body.nodes, w1, w2);
    }
  }

  /** After one node the calls are still alike, with the node's constants added. */
  lemma {:induction false} NodeKeepsAlike(
    k: Kernel, node: Node, ctx: map<string, nat>, constants: set<string>, w1: World, e1: Env, w2: World, e2: Env)
    requires ComparableNode(k, node, ctx, constants, w1, e1, w2, e2)
    ensures EvalNode(k, node, w1, e1).Some? && EvalNode(k, node, w2, e2).Some? ==>
              Alike(ctx, constants + Produced(node), w1, EvalNode(k, node, w1, e1).value,
                    w2, EvalNode(k, node, w2, e2).value)
    decreases node
  {
    if EvalNode(k, node, w1, e1).Some? && EvalNode(k, node, w2, e2).Some? {
      if node.op == If {
        BranchComparable(k, node, ctx, constants, w1, e1, w2, e2);
        var b := Body(node.subgraphs, BranchRole(Decision(node, w1).value));
        var body := node.subgraphs[b];
        var i1, i2 := EvalNodes(k, body.nodes, w1, e1), EvalNodes(k, body.nodes, w2, e2);
        NodesKeepAlike(k, body.nodes, ctx, Inherited(constants, body), w1, e1, w2, e2);
        CollectAlike(i1.value, i2.value, ConstantsAfter(body.nodes, Inherited(constants, body)), body.outputNames);
        assert Produced(node) == {} && constants + Produced(node) == constants;
        BoundAlike(node, ctx, constants, w1, e1, w2, e2,
                   Collect(i1.value, body.outputNames).value, Collect(i2.value, body.outputNames).value);
      } else {
        ArgsAlike(node, ctx, constants, w1, e1, w2, e2);
        KernelAlike(k, node, ctx, constants, w1, e1, w2, e2);
        BoundAlike(node, ctx, constants, w1, e1, w2, e2,
                   k(node, Args(node, w1, e1).value, w1.noise).value, k(node, Args(node, w2, e2).value, w2.noise).value);
      }
    }
  }

  lemma {:induction false} BoundAlike(
    node: Node, ctx: map<string, nat>, constants: set<string>, w1: World, e1: Env, w2: World, e2: Env,
    v1: seq<Value>, v2: seq<Value>)
    requires CleanNode(node, ctx, constants) && Alike(ctx, constants, w1, e1, w2, e2)
    requires |v1| == |node.outputs| && SameShapes(v1, v2) && (Produced(node) != {} ==> v1 == v2)
    ensures Alike(ctx, constants + Produced(node), w1, Bind(e1, node.outputs, v1), w2, Bind(e2, node.outputs, v2))
  {
    var f1, f2 := Bind(e1, node.outputs, v1), Bind(e2, node.outputs, v2);
    forall name | name in f1 ensures name !in ctx { BindKeys(e1, node.outputs, v1, name); }
    if Produced(node) == {} {
      BindAlike(e1, e2, constants, node.outputs, v1, v2);
      assert constants + Produced(node) == constants;
    } else {
      BindEqual(e1, e2, constants, node.outputs, v1);
      assert Produced(node) == (set name | name in node.outputs && name != "");
    }
  }

  /** After a whole plan: the same shapes everywhere, and equal shape constants. */
  lemma {:induction false} NodesKeepAlike(
    k: Kernel, nodes: seq<Node>, ctx: map<string, nat>, constants: set<string>, w1: World, e1: Env, w2: World, e2: Env)
    requires Comparable(k, nodes, ctx, constants, w1, e1, w2, e2)
    ensures EvalNodes(k, nodes, w1, e1).Some? && EvalNodes(k, nodes, w2, e2).Some? ==>
              Alike(ctx, ConstantsAfter(nodes, constants), w1, EvalNodes(k, nodes, w1, e1).value,
                    w2, EvalNodes(k, nodes, w2, e2).value)
    decreases nodes
  {
    if nodes != [] && EvalNodes(k, nodes, w1, e1).Some? && EvalNodes(k, nodes, w2, e2).Some? {
      AdmittedTail(nodes);
      NodeKeepsAlike(k, nodes[0], ctx, constants, w1, e1, w2, e2);
      NodesKeepAlike(k, nodes[1..], ctx, constants + Produced(nodes[0]), w1, EvalNode(k, nodes[0], w1, e1).value,
                     w2, EvalNode(k, nodes[0], w2, e2).value);
    }
  }

  // ---- Replaying a trace ------------------------------------------------------------------------

  /** Host parameters as the trace read them, every other input live. */
  function Baked(node: Node, traced: seq<Arg>, live: seq<Arg>): (args: seq<Arg>)
    requires |traced| == |live|
    ensures |args| == |live|
    ensures forall i {:trigger args[i]} :: 0 <= i < |live| ==>
              args[i] == if i in HostParameters(node) then traced[i] else live[i]
  {
    seq(|live|, i requires 0 <= i < |live| => if i in HostParameters(node) then traced[i] else live[i])
  }

  /** Replay the graph traced in world `w0`, its draws included, on the inputs of world `w`. */
  function ReplayNodes(k: Kernel, nodes: seq<Node>, w0: World, e0: Env, w: World, env: Env): (after: Option<Env>)
    requires Arity(k)
    decreases nodes
  {
    if nodes == [] then Some(env)
    else
      match (EvalNode(k, nodes[0], w0, e0), ReplayNode(k, nodes[0], w0, e0, w, env))
      case (Some(f0), Some(f)) => ReplayNodes(k, nodes[1..], w0, f0, w, f)
      case _ => None
  }

  function ReplayNode(k: Kernel, node: Node, w0: World, e0: Env, w: World, env: Env): (after: Option<Env>)
    requires Arity(k)
    decreases node
  {
    if node.op == If then
      match Condition(node, w0, e0)
      case None => None
      case Some(taken) =>
        var b := Body(node.subgraphs, BranchRole(taken));
        if b == |node.subgraphs| || node.subgraphs[b].inputNames != [] then None
        else
          match ReplayNodes(k, node.subgraphs[b].nodes, w0, e0, w, env)
          case None => None
          case Some(inner) =>
            match Collect(inner, node.subgraphs[b].outputNames)
            case None => None
            case Some(values) => if |values| != |node.outputs| then None else Some(Bind(env, node.outputs, values))
    else
      match (Args(node, w0, e0), Args(node, w, env))
      case (Some(traced), Some(live)) =>
        (match k(node, Baked(node, traced, live), w0.noise)
         case None => None
         case Some(values) => Some(Bind(env, node.outputs, values)))
      case _ => None
  }

  lemma {:induction false} ReplayNodeIsEager(
    k: Kernel, node: Node, ctx: map<string, nat>, constants: set<string>, w0: World, e0: Env, w: World, env: Env)
    requires ComparableNode(k, node, ctx, constants, w0, e0, w, env) && EvalNode(k, node, w0, e0).Some?
    ensures ReplayNode(k, node, w0, e0, w, env) == EvalNode(k, node, w, env)
    decreases node
  {
    if node.op == If {
      BranchComparable(k, node, ctx, constants, w0, e0, w, env);
      var b := Body(node.subgraphs, BranchRole(Decision(node, w0).value));
      var body := node.subgraphs[b];
      ReplayIsEager(k, body.nodes, ctx, Inherited(constants, body), w0, e0, w, env);
    } else {
      ArgsAlike(node, ctx, constants, w0, e0, w, env);
      HostArgsEqual(node, ctx, constants, w0, e0, w, env);
      var live := Args(node, w, env).value;
      assert Baked(node, Args(node, w0, e0).value, live) == live;
      assert k(node, live, w0.noise) == k(node, live, w.noise);
    }
  }

  /** A successful trace, replayed on a comparable call, computes what running that call computes. */
  lemma {:induction false} ReplayIsEager(
    k: Kernel, nodes: seq<Node>, ctx: map<string, nat>, constants: set<string>, w0: World, e0: Env, w: World, env: Env)
    requires Comparable(k, nodes, ctx, constants, w0, e0, w, env) && EvalNodes(k, nodes, w0, e0).Some?
    ensures ReplayNodes(k, nodes, w0, e0, w, env) == EvalNodes(k, nodes, w, env)
    decreases nodes
  {
    if nodes != [] {
      AdmittedTail(nodes);
      ReplayNodeIsEager(k, nodes[0], ctx, constants, w0, e0, w, env);
      if EvalNode(k, nodes[0], w, env).Some? {
        NodeKeepsAlike(k, nodes[0], ctx, constants, w0, e0, w, env);
        ReplayIsEager(k, nodes[1..], ctx, constants + Produced(nodes[0]), w0, EvalNode(k, nodes[0], w0, e0).value,
                      w, EvalNode(k, nodes[0], w, env).value);
      }
    }
  }
}
