/**
 Why leaf keys name payloads: an owned copy is known by its name and address, every other immutable
 leaf by its name. One payload per such origin gives every key its meaning.
 */
module LeafKeys {
  import opened Wrappers
  import opened PlanNodes
  import opened Noninterference
  import opened ScopedTranslation

  /** Some node, here or in a body, reads the immutable leaf `r`. */
  ghost predicate HasLeaf(nodes: seq<Node>, r: TensorRef)
    decreases nodes
  {
    exists n {:trigger nodes[n]} :: 0 <= n < |nodes| && NodeHasLeaf(nodes[n], r)
  }

  ghost predicate NodeHasLeaf(node: Node, r: TensorRef)
    decreases node
  {
    || (r in node.inputs && (r.source == Initializer || (r.source == CtxInput && r.constant)))
    || exists s {:trigger node.subgraphs[s]} :: 0 <= s < |node.subgraphs| && HasLeaf(node.subgraphs[s].nodes, r)
  }

  /** The plan's own copy of an initializer, at an address. */
  ghost predicate OwnCopy(r: TensorRef) {
    r.source == Initializer && r.owned.Some?
  }

  /** Two leaves that stand for one payload: the same copy, or the same name where the plan has no copy. */
  ghost predicate SameOrigin(r: TensorRef, q: TensorRef) {
    && r.name == q.name && (OwnCopy(r) <==> OwnCopy(q))
    && (OwnCopy(r) ==> r.owned.value == q.owned.value)
  }

  ghost predicate OnePayload(nodes: seq<Node>) {
    forall r, q {:trigger HasLeaf(nodes, r), HasLeaf(nodes, q)} ::
      HasLeaf(nodes, r) && HasLeaf(nodes, q) && SameOrigin(r, q) ==> r.init == q.init
  }

  lemma {:induction false} KeyIsOrigin(r: TensorRef, q: TensorRef)
    ensures CacheKeyOf(r) == CacheKeyOf(q) <==> SameOrigin(r, q)
  {
  }

  /** The payload a key names among the leaves of a plan. */
  ghost function Payload(nodes: seq<Node>, key: CacheKey): (v: Value) {
    if r :| HasLeaf(nodes, r) && CacheKeyOf(r) == key then r.init else Value(0, [], [])
  }

  lemma {:induction false} PayloadOfLeaf(nodes: seq<Node>, r: TensorRef)
    requires OnePayload(nodes) && HasLeaf(nodes, r)
    ensures Payload(nodes, CacheKeyOf(r)) == r.init
  {
    var q :| HasLeaf(nodes, q) && CacheKeyOf(q) == CacheKeyOf(r) && Payload(nodes, CacheKeyOf(r)) == q.init;
    KeyIsOrigin(q, r);
  }

  /** Views name their output, here and in every body. */
  ghost predicate NamedViews(nodes: seq<Node>)
    decreases nodes
  {
    forall n {:trigger nodes[n]} :: 0 <= n < |nodes| ==> NamedViewsNode(nodes[n])
  }

  ghost predicate NamedViewsNode(node: Node)
    decreases node
  {
    && (IsView(node) ==> node.outputs[0] != "")
    && forall s {:trigger node.subgraphs[s]} :: 0 <= s < |node.subgraphs| ==> NamedViews(node.subgraphs[s].nodes)
  }

  /** With one payload per origin, every leaf of the plan holds what its key names. */
  lemma {:induction false} LeavesHaveMeanings(whole: seq<Node>, nodes: seq<Node>, m: Meanings)
    requires OnePayload(whole) && NamedViews(nodes)
    requires forall r {:trigger HasLeaf(nodes, r)} :: HasLeaf(nodes, r) ==> HasLeaf(whole, r)
    requires forall key {:trigger m.leaf(key)} :: m.leaf(key) == Payload(whole, key)
    ensures LeavesFollow(nodes, m)
    decreases nodes, 1
  {
    if nodes != [] {
      forall r | NodeHasLeaf(nodes[0], r) ensures HasLeaf(whole, r) { assert HasLeaf(nodes, r); }
      NodeLeavesHaveMeanings(whole, nodes[0], m);
      forall r | HasLeaf(nodes[1..], r) ensures HasLeaf(whole, r) {
        var n :| 0 <= n < |nodes[1..]| && NodeHasLeaf(nodes[1..][n], r);
        assert nodes[n + 1] == nodes[1..][n] && HasLeaf(nodes, r);
      }
      forall n | 0 <= n < |nodes[1..]| ensures NamedViewsNode(nodes[1..][n]) { assert nodes[1..][n] == nodes[n + 1]; }
      LeavesHaveMeanings(whole, nodes[1..], m);
    }
  }

  lemma {:induction false} NodeLeavesHaveMeanings(whole: seq<Node>, node: Node, m: Meanings)
    requires OnePayload(whole) && NamedViewsNode(node)
    requires forall r {:trigger NodeHasLeaf(node, r)} :: NodeHasLeaf(node, r) ==> HasLeaf(whole, r)
    requires forall key {:trigger m.leaf(key)} :: m.leaf(key) == Payload(whole, key)
    ensures LeavesFollowNode(node, m)
    decreases node, 0
  {
    forall i | 0 <= i < |node.inputs| && IsLeaf(node.inputs[i])
      ensures m.leaf(CacheKeyOf(node.inputs[i])) == node.inputs[i].init
    {
      assert node.inputs[i] in node.inputs && NodeHasLeaf(node, node.inputs[i]);
      PayloadOfLeaf(whole, node.inputs[i]);
    }
    forall s | 0 <= s < |node.subgraphs| ensures LeavesFollow(node.subgraphs[s].nodes, m) {
      forall r | HasLeaf(node.subgraphs[s].nodes, r) ensures HasLeaf(whole, r) { assert NodeHasLeaf(node, r); }
      LeavesHaveMeanings(whole, node.subgraphs[s].nodes, m);
    }
  }

  /** What a translation may suppose of leaves follows from one payload per origin. */
  lemma {:induction false} PlanHasMeanings(nodes: seq<Node>, cast: (Value, nat) -> Value,
                                           transpose: (Value, Option<seq<int>>) -> Value) returns (m: Meanings)
    requires OnePayload(nodes) && NamedViews(nodes)
    ensures LeavesFollow(nodes, m) && m.cast == cast && m.transpose == transpose
  {
    m := Meanings((key: CacheKey) => Payload(nodes, key), cast, transpose);
    LeavesHaveMeanings(nodes, nodes, m);
  }

  // ---- Views of immutable data ------------------------------------------------------------------

  /** A registry whose views do what the operators say, and nothing else. */
  function ViewKernel(m: Meanings): (k: Kernel) {
    (node: Node, a: seq<Arg>, noise: nat) =>
      if |a| != 1 || a[0].Missing? || |node.outputs| != 1 then None
      else
        match node.op
        case Identity => Some([a[0].value])
        case Cast => Some([m.cast(a[0].value, node.resultType)])
        case Transpose => Some([m.transpose(a[0].value, node.permutation)])
        case _ => None
  }

  lemma {:induction false} ViewKernelFollows(m: Meanings)
    ensures ViewsFollow(ViewKernel(m), m) && Arity(ViewKernel(m))
  {
  }

  /** The key of an immutable input; an intermediate has one if it was given one. */
  ghost predicate Origin(frozen: map<string, FrozenKey>, r: TensorRef, key: FrozenKey) {
    if OwnCopy(r) then key == Leaf(Copied(r.name, r.owned.value))
    else if r.source == Initializer || (r.source == CtxInput && r.constant) then key == Leaf(Plain(r.name))
    else r.source == Intermediate && r.name in frozen && key == frozen[r.name]
  }

  /** A standard Identity, Cast or Transpose with one input and one output. */
  ghost predicate UnaryView(node: Node) {
    && node.domain in {Standard, AiOnnx} && |node.inputs| == 1 && |node.outputs| == 1
    && node.op in {Identity, Cast, Transpose}
  }

  /** Exactly the views of keyed data get a key: that of the input, cast or transposed as the view does it. */
  lemma {:induction false} TrackedMeans(frozen: map<string, FrozenKey>, node: Node)
    ensures (!UnaryView(node) || forall key: FrozenKey {:trigger Origin(frozen, node.inputs[0], key)} :: !Origin(frozen, node.inputs[0], key))
            ==> Tracked(frozen, node) == frozen
    ensures UnaryView(node) ==>
              forall key: FrozenKey {:trigger Origin(frozen, node.inputs[0], key)} :: Origin(frozen, node.inputs[0], key) ==>
                Tracked(frozen, node)
                == frozen[node.outputs[0] :=
                     if node.op == Identity then key
                     else if node.op == Cast then CastOf(key, node.resultType)
                     else TransposeOf(key, node.permutation)]
  {
    if UnaryView(node) && FrozenKeyOf(frozen, node.inputs[0]).Some? {
      assert Origin(frozen, node.inputs[0], FrozenKeyOf(frozen, node.inputs[0]).value);
    }
  }
}
