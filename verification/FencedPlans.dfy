/**
 From the fence and the guard to admission: a plan that was marked, fenced and found open to the
 general route, and whose capture succeeds, runs nothing whose shape depends on a live value.
 */
module FencedPlans {
  import opened Wrappers
  import opened PlanNodes
  import opened ShapeConstants
  import opened ShapeFences
  import opened Noninterference

  // ---- What fencing leaves as it was ------------------------------------------------------------

  lemma {:induction false} FencedTail(nodes: seq<Node>, owner: bool)
    requires nodes != []
    ensures Fenced(nodes, owner) == [FencedNode(nodes[0], owner)] + Fenced(nodes[1..], owner)
  {
  }

  lemma {:induction false} FencedOutputs(nodes: seq<Node>, owner: bool)
    ensures Outputs(Fenced(nodes, owner)) == Outputs(nodes)
  {
    var fs := Fenced(nodes, owner);
    forall name ensures name in Outputs(fs) <==> name in Outputs(nodes) {
      if name in Outputs(fs) {
        var n :| 0 <= n < |fs| && name in fs[n].outputs;
        assert name in nodes[n].outputs;
      }
      if name in Outputs(nodes) {
        var n :| 0 <= n < |nodes| && name in nodes[n].outputs;
        assert name in fs[n].outputs;
      }
    }
  }

  lemma {:induction false} FencedScope(body: Subgraph, constants: set<string>)
    ensures Inherited(constants, body.(nodes := Fenced(body.nodes, false))) == Inherited(constants, body)
  {
    FencedOutputs(body.nodes, false);
  }

  /** The shape-constant flags survive the fence. */
  lemma {:induction false} FencedFlagged(nodes: seq<Node>, constants: set<string>, owner: bool)
    requires Flagged(nodes, constants)
    ensures Flagged(Fenced(nodes, owner), constants)
    decreases nodes
  {
    if nodes != [] {
      FencedTail(nodes, owner);
      var f := FencedNode(nodes[0], owner);
      forall s | 0 <= s < |f.subgraphs| ensures Flagged(f.subgraphs[s].nodes, Inherited(constants, f.subgraphs[s])) {
        var body := nodes[0].subgraphs[s];
        FencedScope(body, constants);
        FencedFlagged(body.nodes, Inherited(constants, body), false);
      }
      assert FlaggedNode(f, constants);
      assert Produced(f) == Produced(nodes[0]);
      FencedFlagged(nodes[1..], constants + Produced(nodes[0]), owner);
    }
  }

  lemma {:induction false} FencedLive(nodes: seq<Node>, owner: bool)
    ensures AnyLive(Fenced(nodes, owner)) <==> AnyLive(nodes)
    decreases nodes, 1
  {
    var fs := Fenced(nodes, owner);
    forall n | 0 <= n < |nodes|
      ensures LiveHere(fs[n]) || LiveInside(fs[n]) <==> LiveHere(nodes[n]) || LiveInside(nodes[n])
    {
      FencedNodeLive(nodes[n], owner);
    }
    if AnyLive(nodes) {
      var n :| 0 <= n < |nodes| && (LiveHere(nodes[n]) || LiveInside(nodes[n]));
      assert LiveHere(fs[n]) || LiveInside(fs[n]);
    }
  }

  lemma {:induction false} FencedNodeLive(node: Node, owner: bool)
    ensures LiveHere(FencedNode(node, owner)) <==> LiveHere(node)
    ensures LiveInside(FencedNode(node, owner)) <==> LiveInside(node)
    decreases node, 0
  {
    var f := FencedNode(node, owner);
    forall s | 0 <= s < |node.subgraphs|
      ensures AnyLive(f.subgraphs[s].nodes) <==> AnyLive(node.subgraphs[s].nodes)
    {
      FencedLive(node.subgraphs[s].nodes, false);
    }
    if LiveInside(node) {
      var s :| 0 <= s < |node.subgraphs| && AnyLive(node.subgraphs[s].nodes);
      assert AnyLive(f.subgraphs[s].nodes);
    }
  }

  /** If the route is open after fencing, a live value can only be the native owner's own. */
  lemma {:induction false} OpenMeansFenced(nodes: seq<Node>, owner: bool, n: nat)
    requires ShapeKeyedSupported(Fenced(nodes, owner)) && n < |nodes|
    ensures !LiveInside(Fenced(nodes, owner)[n])
    ensures LiveHere(Fenced(nodes, owner)[n]) ==> owner
  {
    assert NodeShapeKeyed(Fenced(nodes, owner)[n]);
    FencedNodeSupport(nodes[n], owner);
    FencedNodeLive(nodes[n], owner);
  }

  // ---- Capturing --------------------------------------------------------------------------------

  /** While a graph is captured, Tile refuses repeats that are not constants of the plan. */
  predicate RefusesCapture(node: Node) {
    node.op == Tile && |node.inputs| > 1 && Live(node.inputs[1])
  }

  function Capturing(k: Kernel): (capturing: Kernel) {
    (node: Node, args: seq<Arg>, noise: nat) => if RefusesCapture(node) then None else k(node, args, noise)
  }

  /** Only a Tile whose repeats are neither an initializer nor a constant is refused. */
  lemma {:induction false} CapturingMeans(k: Kernel, node: Node, a: seq<Arg>, noise: nat)
    ensures Capturing(k)(node, a, noise)
         == if node.op == Tile && |node.inputs| > 1 && node.inputs[1].source != Initializer && !node.inputs[1].constant
            then None else k(node, a, noise)
  {
    var refused := RefusesCapture(node);
    assert refused <==> node.op == Tile && |node.inputs| > 1 && Live(node.inputs[1]);
    if refused { assert Capturing(k)(node, a, noise) == None; } else { assert Capturing(k)(node, a, noise) == k(node, a, noise); }
  }

  /** A successful capture computes what an eager run computes. */
  lemma {:induction false} CaptureIsEager(k: Kernel, nodes: seq<Node>, w: World, env: Env)
    requires Arity(k) && Arity(Capturing(k)) && EvalNodes(Capturing(k), nodes, w, env).Some?
    ensures EvalNodes(k, nodes, w, env) == EvalNodes(Capturing(k), nodes, w, env)
    decreases nodes
  {
    if nodes != [] {
      CaptureNodeIsEager(k, nodes[0], w, env);
      CaptureIsEager(k, nodes[1..], w, EvalNode(k, nodes[0], w, env).value);
    }
  }

  lemma {:induction false} CaptureNodeIsEager(k: Kernel, node: Node, w: World, env: Env)
    requires Arity(k) && Arity(Capturing(k)) && EvalNode(Capturing(k), node, w, env).Some?
    ensures EvalNode(k, node, w, env) == EvalNode(Capturing(k), node, w, env)
    decreases node
  {
    if node.op == If {
      var b := Body(node.subgraphs, BranchRole(Condition(node, w, env).value));
      CaptureIsEager(k, node.subgraphs[b].nodes, w, env);
    }
  }

  lemma LiveTileIsRefused(k: Kernel, node: Node, w: World, env: Env)
    requires Arity(Capturing(k)) && LiveTile(node)
    ensures EvalNode(Capturing(k), node, w, env) == None
  {
    assert RefusesCapture(node);
    if Args(node, w, env).Some? {
      assert Capturing(k)(node, Args(node, w, env).value, w.noise) == None;
    }
  }

  /** A capture that succeeds met no live Tile of its own level. */
  lemma {:induction false} CapturedHasNoLiveTile(k: Kernel, nodes: seq<Node>, w: World, env: Env, n: nat)
    requires Arity(Capturing(k)) && EvalNodes(Capturing(k), nodes, w, env).Some? && n < |nodes|
    ensures !LiveTile(nodes[n])
    decreases nodes
  {
    if LiveTile(nodes[0]) { LiveTileIsRefused(k, nodes[0], w, env); }
    if n > 0 { CapturedHasNoLiveTile(k, nodes[1..], w, EvalNode(Capturing(k), nodes[0], w, env).value, n - 1); }
  }

  lemma CapturingArity(k: Kernel)
    requires Arity(k)
    ensures Arity(Capturing(k))
  {
    forall node: Node, a: seq<Arg>, n: nat | Capturing(k)(node, a, n).Some?
      ensures |Capturing(k)(node, a, n).value| == |node.outputs|
    {
      assert k(node, a, n).Some?;
    }
  }

  /**
   The composition: marking, fence, guard and capture together admit the plan, native owner or not.
   */
  lemma {:induction false} CapturedIsAdmitted(
    k: Kernel, marked: seq<Node>, owner: bool, w: World, env: Env)
    requires Arity(Capturing(k)) && GeneralEnabled(Fenced(marked, owner))
    requires EvalNodes(Capturing(k), Fenced(marked, owner), w, env).Some?
    ensures Admitted(Fenced(marked, owner))
  {
    var nodes := Fenced(marked, owner);
    forall n | 0 <= n < |nodes| ensures Unfenced(nodes[n]) {
      OpenMeansFenced(marked, owner, n);
      CapturedHasNoLiveTile(k, nodes, w, env, n);
    }
  }

  // ---- The hypotheses leave room for a live Tile ------------------------------------------------

  /** A registry that runs live Tiles, with an output shape read off the repeats. */
  function TileKernel(): (k: Kernel) {
    (node: Node, a: seq<Arg>, noise: nat) =>
      if TileWithDynamicRepeats(node) && |a| == 2 && a[0].Given? && a[1].Given?
      then Some([Value(a[0].value.dtype, a[1].value.data, [])]) else None
  }

  lemma TileKernelShapesFollow()
    ensures ShapesFollow(TileKernel())
  {
    forall node: Node, a: seq<Arg>, noise: nat | Capturable(node) ensures TileKernel()(node, a, noise) == None {}
  }

  lemma TileKernelIgnoresNoise()
    ensures Arity(TileKernel()) && ShapeOpsFollow(TileKernel()) && Deterministic(TileKernel())
  {
  }

  /** What is assumed of the operators holds of it, although its shapes follow the repeats' values. */
  lemma LiveTileIsSound(node: Node, a: seq<Arg>, repeats: seq<int>, noise: nat)
    requires TileWithDynamicRepeats(node) && |a| == 2 && a[0].Given? && a[1].Given? && a[1].value.data == repeats
    ensures Sound(TileKernel())
    ensures TileKernel()(node, a, noise).Some? && TileKernel()(node, a, noise).value[0].shape == repeats
  {
    TileKernelShapesFollow();
    TileKernelIgnoresNoise();
  }
}
