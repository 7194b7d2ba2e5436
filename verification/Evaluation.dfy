/**
 What evaluating a plan means, node by node: which body an If runs, what an operator reads and what
 it binds, and what a replay takes from the trace instead of from the call.
 */
module Evaluation {
  import opened Wrappers
  import opened PlanNodes
  import opened Noninterference

  // ---- Names and values -------------------------------------------------------------------------

  /** Outputs are collected by name, in order; there is a result exactly when every name is bound. */
  lemma {:induction false} CollectMeans(env: Env, names: seq<string>)
    ensures Collect(env, names).Some? <==> forall i {:trigger names[i]} :: 0 <= i < |names| ==> names[i] in env
    ensures Collect(env, names).Some? ==>
              forall i {:trigger names[i]} :: 0 <= i < |names| ==> Collect(env, names).value[i] == env[names[i]]
  {
    if names != [] {
      CollectMeans(env, names[1..]);
      forall i | 0 < i < |names| ensures names[i] == names[1..][i - 1] {}
      if names[0] in env && Collect(env, names[1..]).Some? {
        var more := Collect(env, names[1..]).value;
        assert Collect(env, names).value == [env[names[0]]] + more;
        forall i | 0 <= i < |names| ensures names[i] in env && Collect(env, names).value[i] == env[names[i]] {
          if i > 0 { assert more[i - 1] == env[names[1..][i - 1]]; }
        }
      } else if names[0] in env {
        var j :| 0 <= j < |names[1..]| && names[1..][j] !in env;
        assert names[j + 1] !in env;
      }
    }
  }

  /** Binding gives every named output its value, the last one if a name repeats, and keeps other names. */
  lemma {:induction false} BindMeans(env: Env, names: seq<string>, values: seq<Value>, name: string)
    requires |names| == |values|
    ensures name in names && name != "" ==>
              exists i {:trigger values[i]} :: 0 <= i < |names| && names[i] == name
                && (forall j {:trigger names[j]} :: i < j < |names| ==> names[j] != name)
                && name in Bind(env, names, values) && Bind(env, names, values)[name] == values[i]
    ensures name !in names || name == "" ==>
              && (name in Bind(env, names, values) <==> name in env)
              && (name in env ==> Bind(env, names, values)[name] == env[name])
    decreases names
  {
    if names != [] {
      var next := if names[0] == "" then env else env[names[0] := values[0]];
      BindMeans(next, names[1..], values[1..], name);
      assert Bind(env, names, values) == Bind(next, names[1..], values[1..]);
      if name in names[1..] && name != "" {
        var i :| 0 <= i < |names[1..]| && names[1..][i] == name
                 && (forall j {:trigger names[1..][j]} :: i < j < |names[1..]| ==> names[1..][j] != name)
                 && Bind(env, names, values)[name] == values[1..][i];
        forall j | i + 1 < j < |names| ensures names[j] != name { assert names[j] == names[1..][j - 1]; }
        assert values[i + 1] == values[1..][i];
      } else if name == names[0] && name != "" {
        forall j | 0 < j < |names| ensures names[j] != name { assert names[j] == names[1..][j - 1]; }
        assert Bind(env, names, values)[name] == values[0];
      }
    }
  }

  /** Nodes run in the order of the plan, each in the environment the ones before it leave. */
  lemma {:induction false} NodesRunInOrder(k: Kernel, nodes: seq<Node>, last: Node, w: World, env: Env)
    requires Arity(k)
    ensures EvalNodes(k, nodes + [last], w, env)
         == match EvalNodes(k, nodes, w, env)
            case None => None
            case Some(before) => EvalNode(k, last, w, before)
    decreases nodes
  {
    if nodes == [] {
      assert [] + [last] == [last] && [last][1..] == [];
    } else {
      assert (nodes + [last])[0] == nodes[0] && (nodes + [last])[1..] == nodes[1..] + [last];
      match EvalNode(k, nodes[0], w, env)
      case None =>
      case Some(next) => NodesRunInOrder(k, nodes[1..], last, w, next);
    }
  }

  // ---- If ---------------------------------------------------------------------------------------

  /** The node's outputs are what the body returns when it runs in the node's own environment. */
  ghost predicate Runs(k: Kernel, node: Node, body: Subgraph, w: World, env: Env)
    requires Arity(k)
  {
    var inner := EvalNodes(k, body.nodes, w, env);
    var names, after := body.outputNames, EvalNode(k, node, w, env);
    if body.inputNames == [] && inner.Some? && |names| == |node.outputs|
       && forall i {:trigger names[i]} :: 0 <= i < |names| ==> names[i] in inner.value
    then after == Some(Bind(env, node.outputs, seq(|names|, i requires 0 <= i < |names| => inner.value[names[i]])))
    else after == None
  }

  ghost predicate FirstWith(node: Node, role: Role, b: nat) {
    && b < |node.subgraphs| && node.subgraphs[b].role == role
    && forall j {:trigger node.subgraphs[j]} :: 0 <= j < b ==> node.subgraphs[j].role != role
  }

  /** A condition whose first element is not zero runs the then body; zero runs the else body. */
  lemma {:induction false} IfRuns(k: Kernel, node: Node, w: World, env: Env, condition: Value, b: nat)
    requires Arity(k) && node.op == If && node.inputs != []
    requires Resolve(node.inputs[0], w, env) == Some(Given(condition)) && condition.data != []
    requires FirstWith(node, if condition.data[0] != 0 then ThenBranch else ElseBranch, b)
    ensures Runs(k, node, node.subgraphs[b], w, env)
  {
    var role := if condition.data[0] != 0 then ThenBranch else ElseBranch;
    FirstIs(node, role, b);
    BodyRuns(k, node, w, env, b);
  }

  lemma {:induction false} FirstIs(node: Node, role: Role, b: nat)
    requires FirstWith(node, role, b)
    ensures Body(node.subgraphs, role) == b
  {
  }

  lemma {:induction false} BodyRuns(k: Kernel, node: Node, w: World, env: Env, b: nat)
    requires Arity(k) && node.op == If && Condition(node, w, env).Some?
    requires b < |node.subgraphs| && b == Body(node.subgraphs, BranchRole(Condition(node, w, env).value))
    ensures Runs(k, node, node.subgraphs[b], w, env)
  {
    var body := node.subgraphs[b];
    var inner := EvalNodes(k, body.nodes, w, env);
    if inner.Some? {
      CollectMeans(inner.value, body.outputNames);
      if Collect(inner.value, body.outputNames).Some? {
        var names := body.outputNames;
        assert Collect(inner.value, names).value
            == seq(|names|, i requires 0 <= i < |names| => inner.value[names[i]]);
      }
    }
  }

  /** An If succeeds only on a readable condition and with the body it asks for. */
  lemma {:induction false} IfNeedsBody(k: Kernel, node: Node, w: World, env: Env) returns (condition: Value, b: nat)
    requires Arity(k) && node.op == If && EvalNode(k, node, w, env).Some?
    ensures node.inputs != [] && Resolve(node.inputs[0], w, env) == Some(Given(condition)) && condition.data != []
    ensures FirstWith(node, if condition.data[0] != 0 then ThenBranch else ElseBranch, b)
  {
    condition := Resolve(node.inputs[0], w, env).value.value;
    b := Body(node.subgraphs, BranchRole(condition.data[0] != 0));
  }

  // ---- Operators --------------------------------------------------------------------------------

  /** What an input of a node denotes: a payload of the plan, a boundary input, or the latest binding. */
  ghost predicate ReadAs(node: Node, i: nat, w: World, env: Env, arg: Arg)
    requires i < |node.inputs|
  {
    var r := node.inputs[i];
    if (node.op == CastLike && i == 1) || r.source == Absent then arg == Missing
    else if r.source == Initializer || (r.source == CtxInput && r.constant) then arg == Given(r.init)
    else if r.name in env then arg == Given(env[r.name])
    else r.source == CtxInput && arg == Given(w.inputs(r.ctxIndex))
  }

  /** An operator hands its handler what its inputs denote and binds what the handler answers. */
  lemma {:induction false} OperatorRuns(k: Kernel, node: Node, w: World, env: Env, args: seq<Arg>)
    requires Arity(k) && node.op != If && |args| == |node.inputs|
    requires forall i {:trigger args[i]} :: 0 <= i < |args| ==> ReadAs(node, i, w, env, args[i])
    ensures k(node, args, w.noise).None? ==> EvalNode(k, node, w, env) == None
    ensures k(node, args, w.noise).Some? ==>
              EvalNode(k, node, w, env) == Some(Bind(env, node.outputs, k(node, args, w.noise).value))
  {
    forall i | 0 <= i < |args| ensures ResolveInput(node, i, w, env) == Some(args[i]) {
      assert ReadAs(node, i, w, env, args[i]);
    }
    assert Args(node, w, env).value == args;
  }

  // ---- Replaying --------------------------------------------------------------------------------

  /** A replay takes host parameters, draws and branches from the traced call, the rest from the new one. */
  lemma {:induction false} ReplayRuns(
    k: Kernel, node: Node, w0: World, e0: Env, w: World, env: Env, traced: seq<Arg>, live: seq<Arg>, args: seq<Arg>)
    requires Arity(k) && node.op != If && |traced| == |live| == |args| == |node.inputs|
    requires forall i {:trigger traced[i]} :: 0 <= i < |traced| ==> ReadAs(node, i, w0, e0, traced[i])
    requires forall i {:trigger live[i]} :: 0 <= i < |live| ==> ReadAs(node, i, w, env, live[i])
    requires forall i {:trigger args[i]} :: 0 <= i < |args| ==>
               args[i] == if i in HostParameters(node) then traced[i] else live[i]
    ensures ReplayNode(k, node, w0, e0, w, env)
         == match k(node, args, w0.noise)
            case None => None
            case Some(values) => Some(Bind(env, node.outputs, values))
  {
    forall i | 0 <= i < |args|
      ensures ResolveInput(node, i, w0, e0) == Some(traced[i]) && ResolveInput(node, i, w, env) == Some(live[i])
    {
      assert ReadAs(node, i, w0, e0, traced[i]) && ReadAs(node, i, w, env, live[i]);
    }
    assert Args(node, w0, e0).value == traced && Args(node, w, env).value == live;
    assert Baked(node, traced, live) == args;
  }

  /** A replayed If runs the body the traced condition chose, whatever the new condition says. */
  lemma {:induction false} ReplayRunsTracedBody(
    k: Kernel, node: Node, w0: World, e0: Env, w: World, env: Env, condition: Value, b: nat)
    requires Arity(k) && node.op == If && node.inputs != []
    requires Resolve(node.inputs[0], w0, e0) == Some(Given(condition)) && condition.data != []
    requires FirstWith(node, if condition.data[0] != 0 then ThenBranch else ElseBranch, b)
    ensures var body := node.subgraphs[b];
            var inner := ReplayNodes(k, body.nodes, w0, e0, w, env);
            ReplayNode(k, node, w0, e0, w, env).Some? ==>
              && inner.Some? && |body.outputNames| == |node.outputs|
              && (forall i {:trigger body.outputNames[i]} :: 0 <= i < |body.outputNames| ==> body.outputNames[i] in inner.value)
              && ReplayNode(k, node, w0, e0, w, env).value
                 == Bind(env, node.outputs, seq(|body.outputNames|, i requires 0 <= i < |body.outputNames| => inner.value[body.outputNames[i]]))
  {
    FirstIs(node, if condition.data[0] != 0 then ThenBranch else ElseBranch, b);
    var body := node.subgraphs[b];
    var inner := ReplayNodes(k, body.nodes, w0, e0, w, env);
    if ReplayNode(k, node, w0, e0, w, env).Some? {
      CollectMeans(inner.value, body.outputNames);
      assert Collect(inner.value, body.outputNames).value
          == seq(|body.outputNames|, i requires 0 <= i < |body.outputNames| => inner.value[body.outputNames[i]]);
    }
  }
}
