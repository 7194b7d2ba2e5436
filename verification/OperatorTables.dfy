/**
 The operator tables behind the guard: which inputs decide an output shape by their values, which of
 them a call's key may guard, and which operators no trace may hold.
 */
module OperatorTables {
  import opened Wrappers
  import opened PlanNodes
  import opened ShapeFences
  import opened ShapeConstants
  import opened Noninterference

  /** The value of input `i` decides a shape, an axis or a parameter of the translation. */
  predicate Steers(node: Node, i: nat) {
    if node.domain == Onnax && node.op == SumToShape then i == 1
    else if node.op in {Reshape, Expand, AffineGrid, Squeeze, Unsqueeze, CumSum, CumProd, TopK, Split} then i == 1
    else if node.op.Reduce? then i == 1
    else if node.op in {ConstantOfShape, HannWindow, HammingWindow, BlackmanWindow} then i == 0
    else if node.op == Slice then 1 <= i <= 4
    else if node.op == Range then i <= 2
    else if node.op in {DFT, MaxUnpool, Col2Im} then i == 1 || i == 2
    else if node.op in {STFT, Pad} then i == 1 || i == 3
    else if node.op == MelWeightMatrix then i <= 4
    else if node.op == TensorScatter then i == 2
    else if node.op in {RNN, GRU, LSTM} then i == 4
    else false
  }

  /** The shape, or the work on the host, depends on what the tensors hold. */
  predicate DataDependent(node: Node) {
    || node.op in {GroupQueryAttention, PagedAttention, SparseAttention, Det, ImageDecoder, NonMaxSuppression, NonZero,
                   TfIdfVectorizer, Unique}
    || node.op == MultiHeadAttention
    || (node.domain == Standard && node.op == Attention && (KeepsPast(node) || GivesPresent(node)))
  }

  /** Attention with an input behind the mask, or an output behind the first, keeps a cache. */
  predicate KeepsPast(node: Node) {
    exists i | 4 <= i < |node.inputs| :: node.inputs[i].source != Absent
  }

  predicate GivesPresent(node: Node) {
    exists i | 1 <= i < |node.outputs| :: node.outputs[i] != ""
  }

  /** Operators whose steering inputs may come from the call, because its key holds their values. */
  predicate MayBeGuarded(node: Node) {
    || (node.domain == Onnax && node.op == SumToShape)
    || node.op in {Reshape, Expand, AffineGrid, Slice, ConstantOfShape, DFT, STFT, HannWindow, HammingWindow, BlackmanWindow,
                   RNN, GRU, LSTM, TopK, Split, Pad, Squeeze, Unsqueeze}
  }

  lemma {:induction false} HostParametersSteer(node: Node, i: nat)
    ensures i in HostParameters(node) <==> Steers(node, i)
  {
  }

  lemma {:induction false} UnsafeMeans(node: Node)
    ensures UnsafeHere(node) <==> DataDependent(node)
  {
  }

  /** The guard refuses a node exactly for a steering input that is neither constant nor keyed. */
  lemma {:induction false} GuardMeans(node: Node)
    requires node.subgraphs == []
    ensures ReadsUnguarded(node, true) <==>
            exists i: nat {:trigger Steers(node, i)} :: Steers(node, i) && i < |node.inputs|
              && var r := node.inputs[i];
                 && (r.source == CtxInput || r.source == Intermediate) && !r.constant && !r.shapeConst
                 && !(r.source == CtxInput && MayBeGuarded(node))
  {
    forall i: nat ensures i in HostParameters(node) <==> Steers(node, i) { HostParametersSteer(node, i); }
    if ReadsUnguarded(node, true) {
      var i :| i in HostParameters(node) && i < |node.inputs| && Unguarded(node, node.inputs[i], true);
      assert Steers(node, i);
    }
  }

  /** The route of a plan without bodies is open exactly if every operator is capturable and guarded. */
  lemma {:induction false} OpenMeans(nodes: seq<Node>)
    requires forall n {:trigger nodes[n]} :: 0 <= n < |nodes| ==> nodes[n].subgraphs == []
    ensures GeneralEnabled(nodes) <==>
            forall n {:trigger nodes[n]} :: 0 <= n < |nodes| ==>
              nodes[n].safety != EagerOnly && !DataDependent(nodes[n]) && !ReadsUnguarded(nodes[n], true)
  {
    forall n | 0 <= n < |nodes|
      ensures GeneralUnsafe(nodes[n]) <==> DataDependent(nodes[n])
      ensures NodeShapeKeyed(nodes[n]) <==> nodes[n].safety != EagerOnly
    {
      UnsafeMeans(nodes[n]);
    }
    if AnyUnguarded(nodes, true) { var n :| 0 <= n < |nodes| && ReadsUnguarded(nodes[n], true); }
    if AnyUnsafe(nodes) { var n :| 0 <= n < |nodes| && GeneralUnsafe(nodes[n]); }
  }

  // ---- The assumptions on operators leave room for every steering value --------------------------

  predicate Decides(node: Node, i: nat) {
    Steers(node, i) || DataDependent(node)
  }

  function Deciding(node: Node): (decides: nat -> bool) {
    (i: nat) => Decides(node, i)
  }

  /** The values of the inputs that decide, one input after the other. */
  function Steering(decides: nat -> bool, a: seq<Arg>, n: nat): (values: seq<int>)
    requires n <= |a|
  {
    if n == 0 then []
    else Steering(decides, a, n - 1) + if decides(n - 1) && a[n - 1].Given? then a[n - 1].value.data else []
  }

  /** A registry whose every output shape is read off the values that steer the node. */
  function SteeredKernel(): (k: Kernel) {
    (node: Node, a: seq<Arg>, noise: nat) =>
      Some(seq(|node.outputs|, _ => Value(0, Steering(Deciding(node), a, |a|), [])))
  }

  lemma {:induction false} SameSteering(decides: nat -> bool, a: seq<Arg>, b: seq<Arg>, n: nat)
    requires n <= |a| == |b|
    requires forall i: nat {:trigger decides(i)} :: i < n && decides(i) ==> a[i] == b[i]
    ensures Steering(decides, a, n) == Steering(decides, b, n)
  {
    if n > 0 { SameSteering(decides, a, b, n - 1); }
  }

  lemma {:induction false} SteeredShapesFollow(node: Node, a: seq<Arg>, b: seq<Arg>)
    requires !DataDependent(node) && |a| == |b| && SameHostArgs(node, a, b)
    ensures Steering(Deciding(node), a, |a|) == Steering(Deciding(node), b, |b|)
  {
    forall i: nat | i < |a| && Decides(node, i) ensures a[i] == b[i] { HostParametersSteer(node, i); }
    SameSteering(Deciding(node), a, b, |a|);
  }

  /** What is assumed of the operators holds of it. */
  lemma {:induction false} SteeredIsSound()
    ensures Sound(SteeredKernel())
  {
    var k := SteeredKernel();
    forall node: Node, a: seq<Arg>, m: nat, b: seq<Arg>, n: nat
      | Capturable(node) && SameArgs(a, b) && SameConstants(node, a, b) && SameHostArgs(node, a, b)
      ensures k(node, a, m).Some? && k(node, b, n).Some? ==> SameShapes(k(node, a, m).value, k(node, b, n).value)
    {
      UnsafeMeans(node);
      SteeredShapesFollow(node, a, b);
    }
    forall node: Node, a: seq<Arg>, m: nat, b: seq<Arg>, n: nat | (node.op == Shape || node.op == Size) && SameArgs(a, b)
      ensures k(node, a, m) == k(node, b, n)
    {
      SameSteering(Deciding(node), a, b, |a|);
    }
  }

  /** Its shapes do follow the values: an input that decides, next to others without elements, is the shape. */
  lemma {:induction false} SteeredShape(node: Node, a: seq<Arg>, noise: nat, i: nat)
    requires i < |a| && (Steers(node, i) || DataDependent(node)) && a[i].Given? && node.outputs != []
    requires forall j: nat {:trigger a[j]} :: j < |a| && j != i && a[j].Given? ==> a[j].value.data == []
    ensures SteeredKernel()(node, a, noise).Some?
    ensures SteeredKernel()(node, a, noise).value[0].shape == a[i].value.data
  {
    OnlySteers(Deciding(node), a, |a|, i);
  }

  lemma {:induction false} OnlySteers(decides: nat -> bool, a: seq<Arg>, n: nat, i: nat)
    requires i < n <= |a| && decides(i) && a[i].Given?
    requires forall j: nat {:trigger a[j]} :: j < |a| && j != i && a[j].Given? ==> a[j].value.data == []
    ensures Steering(decides, a, n) == a[i].value.data
  {
    if n - 1 == i { NothingSteers(decides, a, i); } else { OnlySteers(decides, a, n - 1, i); }
  }

  lemma {:induction false} NothingSteers(decides: nat -> bool, a: seq<Arg>, n: nat)
    requires n <= |a| && forall j: nat {:trigger a[j]} :: j < n && a[j].Given? ==> a[j].value.data == []
    ensures Steering(decides, a, n) == []
  {
    if n > 0 { NothingSteers(decides, a, n - 1); }
  }
}
