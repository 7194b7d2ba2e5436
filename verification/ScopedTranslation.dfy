/**
 Translation against one mutable environment, with the shadowed names of a body saved and restored,
 and the keys that prove a value comes from immutable data.
 */
module ScopedTranslation {
  import opened Wrappers
  import opened PlanNodes
  import opened ShapeConstants
  import opened Noninterference

  /** How the plan cache knows an immutable leaf: by name, or by name and its own copy's address. */
  datatype CacheKey = Plain(name: string) | Copied(name: string, address: nat)

  /** A chain of fixed views over an immutable leaf. */
  datatype FrozenKey =
    | Leaf(key: CacheKey)
    | CastOf(origin: FrozenKey, resultType: nat)
    | TransposeOf(origin: FrozenKey, permutation: Option<seq<int>>)

  /** What leaves and views denote. */
  datatype Meanings = Meanings(
    leaf: CacheKey -> Value, cast: (Value, nat) -> Value, transpose: (Value, Option<seq<int>>) -> Value)

  function Meaning(m: Meanings, key: FrozenKey): (v: Value) {
    match key
    case Leaf(k) => m.leaf(k)
    case CastOf(origin, t) => m.cast(Meaning(m, origin), t)
    case TransposeOf(origin, p) => m.transpose(Meaning(m, origin), p)
  }

  function CacheKeyOf(r: TensorRef): (key: CacheKey) {
    if r.source == Initializer && r.owned.Some? then Copied(r.name, r.owned.value) else Plain(r.name)
  }

  predicate IsLeaf(r: TensorRef) {
    r.source == Initializer || (r.source == CtxInput && r.constant)
  }

  /** A unary view with fixed attributes. */
  predicate IsView(node: Node) {
    && (node.domain == Standard || node.domain == AiOnnx) && |node.inputs| == 1 && |node.outputs| == 1
    && (node.op == Identity || node.op == Cast || node.op == Transpose)
  }

  function ViewValue(m: Meanings, node: Node, v: Value): (r: Value)
    requires IsView(node)
  {
    if node.op == Identity then v
    else if node.op == Cast then m.cast(v, node.resultType)
    else m.transpose(v, node.permutation)
  }

  function ViewKey(node: Node, origin: FrozenKey): (key: FrozenKey)
    requires IsView(node)
  {
    if node.op == Identity then origin
    else if node.op == Cast then CastOf(origin, node.resultType)
    else TransposeOf(origin, node.permutation)
  }

  /** The key of an input that derives from immutable data, if it is known to. */
  function FrozenKeyOf(frozen: map<string, FrozenKey>, r: TensorRef): (key: Option<FrozenKey>) {
    if IsLeaf(r) then Some(Leaf(CacheKeyOf(r)))
    else if r.source == Intermediate && r.name in frozen then Some(frozen[r.name])
    else None
  }

  /** The keys after a node: the output of a view of immutable data gets one. */
  function Tracked(frozen: map<string, FrozenKey>, node: Node): (more: map<string, FrozenKey>) {
    if IsView(node) && FrozenKeyOf(frozen, node.inputs[0]).Some?
    then frozen[node.outputs[0] := ViewKey(node, FrozenKeyOf(frozen, node.inputs[0]).value)]
    else frozen
  }

  /** The kernel's view operators do what the keys say. */
  ghost predicate ViewsFollow(k: Kernel, m: Meanings) {
    forall node: Node, v: Value, n: nat {:trigger k(node, [Given(v)], n)} ::
      IsView(node) && k(node, [Given(v)], n).Some? ==> k(node, [Given(v)], n).value == [ViewValue(m, node, v)]
  }

  /** Leaves with one cache key have one payload, and views name their output, here and in every body. */
  ghost predicate LeavesFollow(nodes: seq<Node>, m: Meanings)
    decreases nodes
  {
    nodes == [] || (LeavesFollowNode(nodes[0], m) && LeavesFollow(nodes[1..], m))
  }

  ghost predicate LeavesFollowNode(node: Node, m: Meanings)
    decreases node
  {
    && (forall i {:trigger node.inputs[i]} :: 0 <= i < |node.inputs| && IsLeaf(node.inputs[i]) ==>
          m.leaf(CacheKeyOf(node.inputs[i])) == node.inputs[i].init)
    && (IsView(node) ==> node.outputs[0] != "")
    && (forall s {:trigger node.subgraphs[s]} :: 0 <= s < |node.subgraphs| ==>
          LeavesFollow(node.subgraphs[s].nodes, m))
  }

  /** Running a body on its formal inputs, without touching the caller's environment. */
  function RunBody(k: Kernel, body: Subgraph, inputs: seq<Value>, w: World, env: Env): (answer: Option<seq<Value>>)
    requires Arity(k)
  {
    if |inputs| != |body.inputNames| then None
    else
      match EvalNodes(k, body.nodes, w, Bind(env, body.inputNames, inputs))
      case None => None
      case Some(inner) => Collect(inner, body.outputNames)
  }

  // ---- What evaluation leaves alone -------------------------------------------------------------

  /** `a` and `b` agree on a name. */
  ghost predicate SameAt(a: Env, b: Env, name: string) {
    (name in a <==> name in b) && (name in a ==> a[name] == b[name])
  }

  lemma {:induction false} BindFrame(env: Env, names: seq<string>, values: seq<Value>, name: string)
    requires |names| == |values| && (name !in names || name == "")
    ensures SameAt(Bind(env, names, values), env, name)
    decreases names
  {
    if names != [] {
      BindFrame(if names[0] == "" then env else env[names[0] := values[0]], names[1..], values[1..], name);
    }
  }

  /** Nodes bind their outputs and nothing else. */
  lemma {:induction false} EvalFrame(k: Kernel, nodes: seq<Node>, w: World, env: Env, name: string)
    requires Arity(k) && EvalNodes(k, nodes, w, env).Some? && (name !in Outputs(nodes) || name == "")
    ensures SameAt(EvalNodes(k, nodes, w, env).value, env, name)
    decreases nodes
  {
    if nodes != [] {
      OutputsFirst(nodes);
      NodeFrame(k, nodes[0], w, env, name);
      EvalFrame(k, nodes[1..], w, EvalNode(k, nodes[0], w, env).value, name);
    }
  }

  lemma {:induction false} NodeFrame(k: Kernel, node: Node, w: World, env: Env, name: string)
    requires Arity(k) && EvalNode(k, node, w, env).Some? && (name !in node.outputs || name == "")
    ensures SameAt(EvalNode(k, node, w, env).value, env, name)
  {
    if node.op == If {
      var b := Body(node.subgraphs, BranchRole(Condition(node, w, env).value));
      var inner := EvalNodes(k, node.subgraphs[b].nodes, w, env).value;
      BindFrame(env, node.outputs, Collect(inner, node.subgraphs[b].outputNames).value, name);
    } else {
      BindFrame(env, node.outputs, k(node, Args(node, w, env).value, w.noise).value, name);
    }
  }

  /** A new payload under a name, as bind does it. */
  function Put(env: Env, name: string, v: Value): (next: Env) { if name == "" then env else env[name := v] }

  lemma {:induction false} BindStep(env: Env, names: seq<string>, values: seq<Value>, i: nat)
    requires |names| == |values| && i < |names|
    ensures Bind(env, names[i..], values[i..]) == Bind(Put(env, names[i], values[i]), names[i + 1..], values[i + 1..])
  {
    assert names[i..][0] == names[i] && names[i..][1..] == names[i + 1..] && values[i..][1..] == values[i + 1..];
  }

  /** The bindings a plan can name. */
  function ViewOf(env: Env, ctx: map<string, nat>): (next: Env) {
    map name | name in env && name != "" && name !in ctx :: env[name]
  }

  /** Outside `names`, the proven keys are the same. */
  ghost predicate SameKeys(a: map<string, FrozenKey>, b: map<string, FrozenKey>, names: set<string>) {
    forall name {:trigger name in a} {:trigger name in b} :: name !in names ==>
      (name in a <==> name in b) && (name in a ==> a[name] == b[name])
  }

  /** The environments agree on every name but these. */
  ghost predicate SameElsewhere(a: Env, b: Env, names: set<string>) {
    forall name {:trigger SameAt(a, b, name)} :: name !in names && name != "" ==> SameAt(a, b, name)
  }

  /** Put back what the names stood for. */
  function PutBack<T>(before: map<string, T>, after: map<string, T>, names: set<string>): (restored: map<string, T>) {
    (map name | name in after && name !in names :: after[name]) + (map name | name in before && name in names :: before[name])
  }

  lemma {:induction false} ViewPutBack(before: Env, after: Env, names: set<string>, ctx: map<string, nat>)
    requires SameElsewhere(ViewOf(after, ctx), ViewOf(before, ctx), names)
    ensures ViewOf(PutBack(before, after, names), ctx) == ViewOf(before, ctx)
  {
    var now, was := ViewOf(PutBack(before, after, names), ctx), ViewOf(before, ctx);
    forall name ensures SameAt(now, was, name) {
      if name !in names && name != "" { assert SameAt(ViewOf(after, ctx), was, name); }
    }
    assert forall name {:trigger name in now} :: name in now ==> SameAt(now, was, name);
    assert forall name {:trigger name in was} :: name in was ==> SameAt(now, was, name);
  }

  lemma {:induction false} KeysPutBack(before: map<string, FrozenKey>, after: map<string, FrozenKey>, names: set<string>)
    requires SameKeys(before - names, after, names)
    ensures PutBack(before, after, names) == before
  {
    var now := PutBack(before, after, names);
    forall name ensures (name in now <==> name in before) && (name in now ==> now[name] == before[name]) {
      if name !in names { assert name in before - names <==> name in after; }
    }
  }

  /** Boundary inputs kept beside the bindings are those of the call. */
  ghost predicate KeepsBoundary(env: Env, ctx: map<string, nat>, w: World) {
    forall name {:trigger env[name]} :: name in env && name in ctx ==> env[name] == w.inputs(ctx[name])
  }

  /** A keyed name holds what its key denotes. */
  ghost predicate Proven(frozen: map<string, FrozenKey>, view: Env, m: Meanings) {
    forall name {:trigger frozen[name]} :: name in frozen ==> name in view && view[name] == Meaning(m, frozen[name])
  }

  lemma {:induction false} BoundaryPutBack(before: Env, after: Env, names: set<string>, ctx: map<string, nat>, w: World)
    requires KeepsBoundary(before, ctx, w) && KeepsBoundary(after, ctx, w)
    ensures KeepsBoundary(PutBack(before, after, names), ctx, w)
  {
  }

  // ---- The translation context ------------------------------------------------------------------

  class Translation {
    const kernel: Kernel
    const world: World
    ghost const meanings: Meanings
    ghost const ctx: map<string, nat>
    var env: map<string, Value>
    var frozen: map<string, FrozenKey>
    var cache: map<FrozenKey, Value>

    /** The bindings a plan can name, without the boundary inputs kept beside them. */
    ghost function View(): (next: Env)
      reads this`env
    {
      ViewOf(env, ctx)
    }

    ghost predicate Valid()
      reads this
    {
      && Arity(kernel) && ViewsFollow(kernel, meanings) && "" !in ctx
      && KeepsBoundary(env, ctx, world) && Proven(frozen, View(), meanings)
      && (forall key {:trigger cache[key]} :: key in cache ==> cache[key] == Meaning(meanings, key))
    }

    /** A run starts with an empty environment and the plan's cache of packed immutable arrays. */
    constructor (k: Kernel, w: World, ghost m: Meanings, ghost names: map<string, nat>, kept: map<FrozenKey, Value>)
      requires Arity(k) && ViewsFollow(k, m) && "" !in names
      requires forall key {:trigger kept[key]} :: key in kept ==> kept[key] == Meaning(m, key)
      ensures Valid() && kernel == k && world == w && meanings == m && ctx == names
      ensures env == map[] && frozen == map[] && cache == kept
    {
      kernel, world, meanings, ctx := k, w, m, names;
      env, frozen, cache := map[], map[], kept;
    }

    /** Look an input up, keeping a dynamic boundary input under its name from then on. */
    method ResolveRef(r: TensorRef) returns (arg: Option<Arg>)
      requires Valid() && CleanRef(r, ctx)
      modifies this`env
      ensures Valid() && View() == old(View())
      ensures arg == Resolve(r, world, View())
    {
      match r.source
      case Absent => arg := Some(Missing);
      case Initializer => arg := Some(Given(r.init));
      case Intermediate =>
        arg := if r.name in env then Some(Given(env[r.name])) else None;
      case CtxInput =>
        if r.constant {
          arg := Some(Given(r.init));
        } else {
          if r.name !in env { env := env[r.name := world.inputs(r.ctxIndex)]; }
          arg := Some(Given(env[r.name]));
        }
    }

    /** All inputs of a node that its handler reads. */
    method ResolveInputs(node: Node) returns (args: Option<seq<Arg>>)
      requires Valid()
      requires forall i {:trigger node.inputs[i]} :: 0 <= i < |node.inputs| && Reads(node, i) ==> CleanRef(node.inputs[i], ctx)
      modifies this`env
      ensures Valid() && View() == old(View())
      ensures args == Args(node, world, View())
    {
      var read: seq<Arg> := [];
      for i := 0 to |node.inputs|
        invariant Valid() && View() == old(View()) && |read| == i
        invariant forall j {:trigger read[j]} :: 0 <= j < i ==> ResolveInput(node, j, world, View()) == Some(read[j])
      {
        var arg := Some(Missing);
        if Reads(node, i) { arg := ResolveRef(node.inputs[i]); }
        assert arg == ResolveInput(node, i, world, View());
        if arg.None? { return None; }
        read := read + [arg.value];
      }
      args := Some(read);
      AllResolved(node, read);
    }

    lemma {:induction false} AllResolved(node: Node, read: seq<Arg>)
      requires |read| == |node.inputs|
      requires forall j {:trigger read[j]} :: 0 <= j < |read| ==> ResolveInput(node, j, world, View()) == Some(read[j])
      ensures Args(node, world, View()) == Some(read)
    {
      forall i | 0 <= i < |node.inputs| ensures ResolveInput(node, i, world, View()).Some? {
        assert ResolveInput(node, i, world, View()) == Some(read[i]);
      }
      assert Args(node, world, View()).value == read;
    }

    /** Bind one output; whatever was proven of the name before no longer holds. */
    method BindOne(name: string, v: Value)
      requires Valid() && (name == "" || name !in ctx)
      modifies this`env, this`frozen
      ensures Valid() && View() == Put(old(View()), name, v) && frozen == old(frozen) - {name}
    {
      env := env[name := v];
      frozen := frozen - {name};
      assert View() == Put(old(View()), name, v);
    }

    method BindOutputs(names: seq<string>, values: seq<Value>)
      requires Valid() && |names| == |values|
      requires forall name {:trigger name in names} :: name in names && name != "" ==> name !in ctx
      modifies this`env, this`frozen
      ensures Valid() && View() == Bind(old(View()), names, values)
      ensures frozen == old(frozen) - (set name | name in names)
    {
      assert names[0..] == names && values[0..] == values;
      for i := 0 to |names|
        invariant Valid()
        invariant Bind(View(), names[i..], values[i..]) == Bind(old(View()), names, values)
        invariant frozen == old(frozen) - (set name | name in names[..i])
      {
        assert names[i] in names;
        BindStep(View(), names, values, i);
        BindOne(names[i], values[i]);
        assert names[..i + 1] == names[..i] + [names[i]];
      }
      assert names[..|names|] == names && names[|names|..] == [];
    }

    /** After a view of immutable data, its output is immutable data too. */
    method TrackFrozenView(node: Node, ghost input: Value)
      requires Valid() && LeavesFollowNode(node, meanings)
      requires IsView(node) ==> node.outputs[0] in View() && View()[node.outputs[0]] == ViewValue(meanings, node, input)
      requires IsView(node) && IsLeaf(node.inputs[0]) ==> node.inputs[0].init == input
      requires IsView(node) && node.inputs[0].source == Intermediate && node.inputs[0].name in frozen ==>
                 View()[node.inputs[0].name] == input
      modifies this`frozen
      ensures Valid() && frozen == Tracked(old(frozen), node)
    {
      if !IsView(node) { return; }
      var origin := FrozenKeyOf(frozen, node.inputs[0]);
      if origin.None? { return; }
      assert Meaning(meanings, origin.value) == input;
      frozen := frozen[node.outputs[0] := ViewKey(node, origin.value)];
    }

    /** Keep one packed copy of immutable data across runs; a kept copy is what packing again would give. */
    method CacheContiguous(key: FrozenKey, a: Value) returns (packed: Value)
      requires Valid() && a == Meaning(meanings, key)
      modifies this`cache
      ensures Valid() && packed == a && key in cache
      ensures cache == if key in old(cache) then old(cache) else old(cache)[key := a]
    {
      if key in cache {
        packed := cache[key];
      } else {
        packed := a;
        cache := cache[key := packed];
      }
    }

    /** Run one node through its handler. */
    method Translate(node: Node, ghost constants: set<string>) returns (ok: bool)
      requires Valid() && CleanNode(node, ctx, constants) && LeavesFollowNode(node, meanings)
      modifies this`env, this`frozen
      ensures ok <==> EvalNode(kernel, node, world, old(View())).Some?
      ensures ok ==> Valid() && View() == EvalNode(kernel, node, world, old(View())).value
      ensures ok ==> SameKeys(old(frozen), frozen, set name | name in node.outputs)
      decreases node, 1
    {
      if node.op == If {
        ok := TranslateIf(node, constants);
      } else {
        ok := TranslatePlain(node, constants);
      }
    }

    method TranslatePlain(node: Node, ghost constants: set<string>) returns (ok: bool)
      requires Valid() && CleanNode(node, ctx, constants) && LeavesFollowNode(node, meanings) && node.op != If
      modifies this`env, this`frozen
      ensures ok <==> EvalNode(kernel, node, world, old(View())).Some?
      ensures ok ==> Valid() && View() == EvalNode(kernel, node, world, old(View())).value
      ensures ok ==> SameKeys(old(frozen), frozen, set name | name in node.outputs)
    {
      ghost var before := View();
      var args := ResolveInputs(node);
      if args.None? { return false; }
      var values := kernel(node, args.value, world.noise);
      if values.None? { return false; }
      BindOutputs(node.outputs, values.value);
      ok := true;
      if IsView(node) && args.value[0].Given? {
        ViewBound(kernel, meanings, node, world, before, args.value, values.value);
        TrackFrozenView(node, args.value[0].value);
      }
    }

    method TranslateIf(node: Node, ghost constants: set<string>) returns (ok: bool)
      requires Valid() && CleanNode(node, ctx, constants) && LeavesFollowNode(node, meanings) && node.op == If
      modifies this`env, this`frozen
      ensures ok <==> EvalNode(kernel, node, world, old(View())).Some?
      ensures ok ==> Valid() && View() == EvalNode(kernel, node, world, old(View())).value
      ensures ok ==> SameKeys(old(frozen), frozen, set name | name in node.outputs)
      decreases node, 0
    {
      if node.inputs == [] { return false; }
      assert Reads(node, 0);
      var condition := ResolveRef(node.inputs[0]);
      if condition.None? || condition.value.Missing? { return false; }
      var taken := Truth(condition.value.value);
      if taken.None? { return false; }
      var b := Body(node.subgraphs, BranchRole(taken.value));
      if b == |node.subgraphs| { return false; }
      var outs := RunSubgraph(node.subgraphs[b], [], Inherited(constants, node.subgraphs[b]));
      if outs.None? || |outs.value| != |node.outputs| { return false; }
      BindOutputs(node.outputs, outs.value);
      ok := true;
    }

    /** Translate nodes in order. */
    method TranslateAll(nodes: seq<Node>, ghost constants: set<string>) returns (ok: bool)
      requires Valid() && Clean(nodes, ctx, constants) && LeavesFollow(nodes, meanings)
      modifies this`env, this`frozen
      ensures ok <==> EvalNodes(kernel, nodes, world, old(View())).Some?
      ensures ok ==> Valid() && View() == EvalNodes(kernel, nodes, world, old(View())).value
      ensures ok ==> SameKeys(old(frozen), frozen, Outputs(nodes))
      decreases nodes, 0
    {
      ghost var now := constants;
      assert nodes[0..] == nodes;
      for n := 0 to |nodes|
        invariant Valid() && Clean(nodes[n..], ctx, now) && LeavesFollow(nodes[n..], meanings)
        invariant EvalNodes(kernel, nodes[n..], world, View()) == EvalNodes(kernel, nodes, world, old(View()))
        invariant SameKeys(old(frozen), frozen, Outputs(nodes))
      {
        assert nodes[n..][0] == nodes[n] && nodes[n..][1..] == nodes[n + 1..];
        ghost var keys := frozen;
        var done := Translate(nodes[n], now);
        if !done { return false; }
        forall name | name !in Outputs(nodes) ensures name !in nodes[n].outputs { assert n < |nodes|; }
        now := now + Produced(nodes[n]);
      }
      assert nodes[|nodes|..] == [];
      ok := true;
    }

    /** Bind a body's inputs; nothing is proven of them. */
    method Enter(names: seq<string>, inputs: seq<Value>)
      requires Valid() && |names| == |inputs|
      requires forall name {:trigger name in names} :: name in names ==> name !in ctx && (name != "" ==> name !in frozen)
      modifies this`env
      ensures Valid() && View() == Bind(old(View()), names, inputs)
    {
      assert names[0..] == names && inputs[0..] == inputs;
      for i := 0 to |names|
        invariant Valid()
        invariant Bind(View(), names[i..], inputs[i..]) == Bind(old(View()), names, inputs)
      {
        assert names[i] in names;
        BindStep(View(), names, inputs, i);
        ghost var before := View();
        if names[i] != "" { env := env[names[i] := inputs[i]]; }
        assert View() == Put(before, names[i], inputs[i]);
      }
      assert names[|names|..] == [];
    }

    method CollectOutputs(names: seq<string>) returns (outs: Option<seq<Value>>)
      requires forall name {:trigger name in names} :: name in names ==> name != "" && name !in ctx
      ensures outs == Collect(View(), names)
    {
      var values: seq<Value> := [];
      assert names[0..] == names;
      assert Collect(View(), names).Some? ==> [] + Collect(View(), names).value == Collect(View(), names).value;
      for i := 0 to |names|
        invariant Collect(View(), names) == Following(values, Collect(View(), names[i..]))
      {
        assert names[i] in names && names[i..][0] == names[i] && names[i..][1..] == names[i + 1..];
        if names[i] !in env { return None; }
        FollowingStep(values, env[names[i]], Collect(View(), names[i + 1..]));
        values := values + [env[names[i]]];
      }
      assert names[|names|..] == [] && values + [] == values;
      outs := Some(values);
    }

    /**
     Run a body against the one environment: bind its inputs over the outer names, translate its
     nodes in order, collect its outputs, and put every shadowed name back.
     */
    method RunSubgraph(body: Subgraph, inputs: seq<Value>, ghost constants: set<string>) returns (outs: Option<seq<Value>>)
      requires Valid() && Clean(body.nodes, ctx, constants) && LeavesFollow(body.nodes, meanings)
      requires |inputs| == |body.inputNames| ==>
                 forall name {:trigger name in body.inputNames} :: name in body.inputNames ==> name !in ctx
      requires forall name {:trigger name in body.outputNames} :: name in body.outputNames ==> name != "" && name !in ctx
      modifies this`env, this`frozen
      ensures outs == RunBody(kernel, body, inputs, world, old(View()))
      ensures outs.Some? ==> Valid() && View() == old(View()) && frozen == old(frozen)
      decreases body.nodes, 2
    {
      if |inputs| != |body.inputNames| { return None; }
      var names := BodyNames(body);
      var saved, savedFrozen := env, frozen;
      outs := RunInside(body, inputs, constants);
      if outs.Some? { Leave(saved, savedFrozen, names); }
    }

    /** Put every name the body bound, and what was proven of it, back. */
    method Leave(saved: map<string, Value>, savedFrozen: map<string, FrozenKey>, names: set<string>)
      requires Valid() && KeepsBoundary(saved, ctx, world) && Proven(savedFrozen, ViewOf(saved, ctx), meanings)
      requires SameElsewhere(View(), ViewOf(saved, ctx), names) && SameKeys(savedFrozen - names, frozen, names)
      modifies this`env, this`frozen
      ensures Valid() && View() == ViewOf(saved, ctx) && frozen == savedFrozen
    {
      ViewPutBack(saved, env, names, ctx);
      KeysPutBack(savedFrozen, frozen, names);
      BoundaryPutBack(saved, env, names, ctx, world);
      env, frozen := PutBack(saved, env, names), PutBack(savedFrozen, frozen, names);
    }

    /** The body itself, before anything is put back. */
    method RunInside(body: Subgraph, inputs: seq<Value>, ghost constants: set<string>) returns (outs: Option<seq<Value>>)
      requires Valid() && Clean(body.nodes, ctx, constants) && LeavesFollow(body.nodes, meanings)
      requires |inputs| == |body.inputNames|
      requires forall name {:trigger name in body.inputNames} :: name in body.inputNames ==> name !in ctx
      requires forall name {:trigger name in body.outputNames} :: name in body.outputNames ==> name != "" && name !in ctx
      modifies this`env, this`frozen
      ensures outs == RunBody(kernel, body, inputs, world, old(View()))
      ensures outs.Some? ==> Valid() && SameKeys(old(frozen) - BodyNames(body), frozen, BodyNames(body))
      ensures outs.Some? ==> SameElsewhere(View(), old(View()), BodyNames(body))
      decreases body.nodes, 1
    {
      frozen := frozen - BodyNames(body);
      ghost var keys := frozen;
      Enter(body.inputNames, inputs);
      var ok := TranslateAll(body.nodes, constants);
      if !ok { return None; }
      BodyFrame(kernel, body, inputs, world, old(View()), BodyNames(body), View());
      KeysOfBody(keys, frozen, body);
      outs := CollectOutputs(body.outputNames);
    }
  }

  /** No key is ever kept for the empty name. */
  lemma {:induction false} KeysOfBody(before: map<string, FrozenKey>, after: map<string, FrozenKey>, body: Subgraph)
    requires SameKeys(before, after, Outputs(body.nodes)) && "" !in before && "" !in after
    ensures SameKeys(before, after, BodyNames(body))
  {
  }

  /** The names a body binds. */
  function BodyNames(body: Subgraph): (names: set<string>) {
    (set name | name in body.inputNames && name != "") + (Outputs(body.nodes) - {""})
  }

  /** A body's run changes nothing but the names it binds. */
  lemma {:induction false} BodyFrame(k: Kernel, body: Subgraph, inputs: seq<Value>, w: World, view: Env,
                                     names: set<string>, after: Env)
    requires Arity(k) && |inputs| == |body.inputNames| && names == BodyNames(body)
    requires EvalNodes(k, body.nodes, w, Bind(view, body.inputNames, inputs)) == Some(after)
    ensures SameElsewhere(after, view, names)
  {
    var inside := Bind(view, body.inputNames, inputs);
    forall name | name !in names && name != "" ensures SameAt(after, view, name) {
      BindFrame(view, body.inputNames, inputs, name);
      EvalFrame(k, body.nodes, w, inside, name);
    }
  }

  /** The values collected so far, followed by the rest. */
  function Following(values: seq<Value>, rest: Option<seq<Value>>): (all: Option<seq<Value>>) {
    match rest
    case None => None
    case Some(more) => Some(values + more)
  }

  lemma {:induction false} FollowingStep(values: seq<Value>, v: Value, rest: Option<seq<Value>>)
    ensures Following(values, Following([v], rest)) == Following(values + [v], rest)
  {
    if rest.Some? { assert values + ([v] + rest.value) == values + [v] + rest.value; }
  }

  /** What binding a view's output leaves: the viewed value, and the input unless it was rebound. */
  lemma {:induction false} ViewBound(k: Kernel, m: Meanings, node: Node, w: World, before: Env, args: seq<Arg>,
                                     values: seq<Value>)
    requires Arity(k) && ViewsFollow(k, m) && IsView(node) && node.outputs[0] != ""
    requires Args(node, w, before) == Some(args) && args[0].Given? && k(node, args, w.noise) == Some(values)
    ensures |values| == 1
    ensures var after, output, name := Bind(before, node.outputs, values), node.outputs[0], node.inputs[0].name;
            && output in after && after[output] == ViewValue(m, node, args[0].value)
            && (IsLeaf(node.inputs[0]) ==> node.inputs[0].init == args[0].value)
            && (node.inputs[0].source == Intermediate && name != output ==>
                  name in after && after[name] == args[0].value)
  {
    assert args == [Given(args[0].value)];
    assert ResolveInput(node, 0, w, before) == Some(args[0]);
    assert node.outputs == [node.outputs[0]] && node.outputs[1..] == [] && values[1..] == [];
  }
}
