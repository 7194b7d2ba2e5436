/** Union-find with path halving, against the map from each node to its root. */
module UnionFind {

  /**
   `parent` is a forest whose root map is `rep`; `height` grows along parent links and certifies that
   every chain of links ends.
   */
  ghost predicate Forest(parent: seq<nat>, rep: seq<nat>, height: seq<nat>) {
    && |parent| == |rep| == |height|
    && (forall v {:trigger rep[v]} :: 0 <= v < |rep| ==> rep[v] < |rep| && parent[rep[v]] == rep[v])
    && (forall v {:trigger parent[v]} :: 0 <= v < |parent| ==>
          && parent[v] < |parent|
          && rep[parent[v]] == rep[v]
          && if parent[v] == v then rep[v] == v else height[v] < height[parent[v]])
    && forall v {:trigger height[v]} :: 0 <= v < |height| ==> height[v] <= height[rep[v]]
  }

  /** The root map after the tree of `right` hangs below `left`. */
  function Joined(rep: seq<nat>, left: nat, right: nat): (r: seq<nat>)
    ensures |r| == |rep|
    ensures forall v :: 0 <= v < |rep| ==> r[v] == if rep[v] == right then left else rep[v]
  {
    seq(|rep|, v requires 0 <= v < |rep| => if rep[v] == right then left else rep[v])
  }

  ghost function Taller(height: seq<nat>, left: nat, right: nat): (more: seq<nat>)
    requires left < |height| && right < |height|
  {
    height[left := if height[left] <= height[right] then height[right] + 1 else height[left]]
  }

  lemma JoinRoots(parent: seq<nat>, rep: seq<nat>, height: seq<nat>, left: nat, right: nat)
    requires Forest(parent, rep, height) && left < |parent| && right < |parent|
    requires rep[left] == left && rep[right] == right && left != right
    ensures Forest(parent[right := left], Joined(rep, left, right), Taller(height, left, right))
  {
  }

  /** Follow parent links to the root, halving the path on the way; every node keeps its root. */
  method UfFind(parent: array<nat>, start: nat, ghost rep: seq<nat>, ghost height: seq<nat>) returns (node: nat)
    requires Forest(parent[..], rep, height) && start < parent.Length
    modifies parent
    ensures Forest(parent[..], rep, height)
    ensures node == rep[start]
  {
    node := start;
    while parent[node] != node
      invariant node < parent.Length && rep[node] == rep[start]
      invariant Forest(parent[..], rep, height)
      decreases height[rep[start]] - height[node]
    {
      ghost var before := parent[..];
      assert before[before[node]] == parent[parent[node]];
      parent[node] := parent[parent[node]];
      assert parent[..] == before[node := before[before[node]]];
      HalvedPath(before, rep, height, node);
      node := parent[node];
    }
  }

  lemma HalvedPath(parent: seq<nat>, rep: seq<nat>, height: seq<nat>, node: nat)
    requires Forest(parent, rep, height) && node < |parent| && parent[node] != node
    ensures Forest(parent[node := parent[parent[node]]], rep, height)
    ensures height[node] < height[parent[parent[node]]]
  {
  }
}
