/** The plan a compiled route works on: nodes with nested bodies, and what the analyses say of each. */
module PlanNodes {
  import opened Wrappers

  datatype Source = Initializer | CtxInput | Intermediate | Absent

  /** A tensor payload: element type, dimensions and elements. */
  datatype Value = Value(dtype: nat, shape: seq<int>, data: seq<int>)

  /**
   A node input. `init` is the payload of an initializer or of a hoisted constant input; `owned` is
   the address of the plan's own copy of it, if there is one.
   */
  datatype TensorRef = TensorRef(
    name: string, source: Source, ctxIndex: nat, constant: bool, shapeConst: bool, init: Value, owned: Option<nat>)

  /** The operators the analyses name; every other one is `Named`. */
  datatype Op =
    | If | Loop | Scan | Shape | Size
    | RandomNormal | RandomUniform | RandomNormalLike | RandomUniformLike | Bernoulli | Multinomial | Dropout
    | Attention | MultiHeadAttention | GroupQueryAttention | PagedAttention | SparseAttention
    | Det | ImageDecoder | NonMaxSuppression | NonZero | TfIdfVectorizer | Unique
    | SumToShape | Reshape | Expand | AffineGrid | Squeeze | Unsqueeze | ConstantOfShape | Slice | Range
    | DFT | STFT | HannWindow | HammingWindow | BlackmanWindow | MelWeightMatrix | MaxUnpool | TensorScatter
    | Col2Im | CumSum | CumProd | RNN | GRU | LSTM | TopK | Split | Pad | Reduce(kind: string)
    | CastLike | Tile | Identity | Cast | Transpose | Named(name: string)

  datatype Domain = Standard | AiOnnx | Onnax | Contrib(name: string)

  const INT32 := 6
  const INT64 := 7

  datatype Safety = Shapeless | ShapeKeyedOnly | EagerOnly

  datatype Role = ThenBranch | ElseBranch | LoopBody | OtherBody(attribute: string)

  /** A node; `resultType` is the element type of its first output, `permutation` its `perm` attribute. */
  datatype Node = Node(
    op: Op, domain: Domain, sinceVersion: int, safety: Safety, inputs: seq<TensorRef>, outputs: seq<string>,
    resultType: nat, permutation: Option<seq<int>>, subgraphs: seq<Subgraph>)

  datatype Subgraph = Subgraph(role: Role, inputNames: seq<string>, outputNames: seq<string>, nodes: seq<Node>)

  /** The first body with a role. */
  function Body(subgraphs: seq<Subgraph>, role: Role): (i: nat)
    ensures i <= |subgraphs|
    ensures i < |subgraphs| ==> subgraphs[i].role == role
    ensures forall j {:trigger subgraphs[j]} :: 0 <= j < i ==> subgraphs[j].role != role
  {
    if subgraphs == [] || subgraphs[0].role == role then 0 else 1 + Body(subgraphs[1..], role)
  }

  predicate IsRandom(op: Op) {
    || op == RandomNormal || op == RandomUniform || op == RandomNormalLike || op == RandomUniformLike
    || op == Bernoulli || op == Multinomial || op == Dropout
  }

  /** The inputs whose values the translator reads on the host. */
  function HostParameters(node: Node): (indices: seq<nat>) {
    if node.domain == Onnax && node.op == SumToShape then [1]
    else
      match node.op
      case Reshape | Expand | AffineGrid | Squeeze | Unsqueeze => [1]
      case ConstantOfShape => [0]
      case Slice => [1, 2, 3, 4]
      case Range => [0, 1, 2]
      case DFT => [1, 2]
      case STFT => [1, 3]
      case HannWindow | HammingWindow | BlackmanWindow => [0]
      case MelWeightMatrix => [0, 1, 2, 3, 4]
      case MaxUnpool => [1, 2]
      case TensorScatter => [2]
      case Col2Im => [1, 2]
      case CumSum | CumProd => [1]
      case RNN | GRU | LSTM => [4]
      case TopK | Split => [1]
      case Pad => [1, 3]
      case Reduce(_) => [1]
      case _ => []
  }

  /** Boundary parameters whose values become part of the specialization key. */
  predicate GuardedBoundary(node: Node, r: TensorRef) {
    r.source == CtxInput &&
    if node.domain == Onnax && node.op == SumToShape then true
    else
      match node.op
      case Reshape | Expand | AffineGrid | Slice | ConstantOfShape | DFT | STFT | HannWindow | HammingWindow
        | BlackmanWindow | RNN | GRU | LSTM | TopK | Split | Pad | Squeeze | Unsqueeze => true
      case _ => false
  }

  predicate Unguarded(node: Node, r: TensorRef, guardBoundary: bool) {
    && r.source != Initializer && r.source != Absent
    && !r.constant && !r.shapeConst
    && !(guardBoundary && GuardedBoundary(node, r))
  }

  /** Some host parameter, here or in a body, is neither constant nor part of the key. */
  predicate ReadsUnguarded(node: Node, guardBoundary: bool) {
    || (exists s | 0 <= s < |node.subgraphs| :: AnyUnguarded(node.subgraphs[s].nodes, guardBoundary))
    || (exists i | i in HostParameters(node) ::
          i < |node.inputs| && Unguarded(node, node.inputs[i], guardBoundary))
  }

  predicate AnyUnguarded(nodes: seq<Node>, guardBoundary: bool) {
    exists n | 0 <= n < |nodes| :: ReadsUnguarded(nodes[n], guardBoundary)
  }

  predicate CacheFreeAttention(node: Node) {
    && node.domain == Standard && node.op == Attention
    && (forall i | 4 <= i < |node.inputs| :: node.inputs[i].source == Absent)
    && (forall i | 1 <= i < |node.outputs| :: node.outputs[i] == "")
  }

  predicate SeparateAttention(node: Node) {
    node.op == MultiHeadAttention || (node.domain == Standard && node.op == Attention)
  }

  /** Operators whose output shape or host work depends on data. */
  predicate UnsafeHere(node: Node) {
    || (SeparateAttention(node) && !CacheFreeAttention(node))
    || match node.op
       case GroupQueryAttention | PagedAttention | SparseAttention | Det | ImageDecoder | NonMaxSuppression | NonZero
         | TfIdfVectorizer | Unique => true
       case _ => false
  }

  predicate GeneralUnsafe(node: Node) {
    UnsafeHere(node) || exists s | 0 <= s < |node.subgraphs| :: AnyUnsafe(node.subgraphs[s].nodes)
  }

  predicate AnyUnsafe(nodes: seq<Node>) {
    exists n | 0 <= n < |nodes| :: GeneralUnsafe(nodes[n])
  }

  predicate ShapeKeyedSupported(nodes: seq<Node>) {
    forall n | 0 <= n < |nodes| :: NodeShapeKeyed(nodes[n])
  }

  predicate NodeShapeKeyed(node: Node) {
    node.safety != EagerOnly && forall s | 0 <= s < |node.subgraphs| :: ShapeKeyedSupported(node.subgraphs[s].nodes)
  }

  /** The general compiled route is open to a plan (environment switches left out). */
  predicate GeneralEnabled(nodes: seq<Node>) {
    !AnyUnsafe(nodes) && !AnyUnguarded(nodes, true) && ShapeKeyedSupported(nodes)
  }
}
