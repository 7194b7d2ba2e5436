/** Inferring where decoder layers end, and how many layers a part then holds. */
module LayerBoundaries {
  import opened Wrappers
  import opened Graphs
  import opened Sorting
  import opened Regions
  import opened Layers

  // ---- Searches confined to a window of node indices --------------------------------------------

  /** A nonempty walk from `start` to `v` whose nodes after the start lie between `lo` and `hi`. */
  ghost predicate Walks(g: Graph, start: nat, lo: nat, hi: nat, v: nat) {
    exists p :: Path(g, p) && |p| >= 2 && p[0] == start && p[|p| - 1] == v && forall k :: 0 < k < |p| ==> lo <= p[k] <= hi
  }

  lemma WalkEdge(g: Graph, start: nat, lo: nat, hi: nat, u: nat, v: nat)
    requires u == start || Walks(g, start, lo, hi, u)
    requires Edge(g, u, v) && lo <= v <= hi
    ensures Walks(g, start, lo, hi, v)
  {
    var q := [u, v];
    assert Path(g, q);
    if u == start {
      assert |q| >= 2 && q[0] == start && q[|q| - 1] == v;
    } else {
      var p :| Path(g, p) && |p| >= 2 && p[0] == start && p[|p| - 1] == u && forall k :: 0 < k < |p| ==> lo <= p[k] <= hi;
      PathJoin(g, p, q);
      var r := p + q[1..];
      assert |r| >= 2 && r[0] == start && r[|r| - 1] == v;
    }
  }

  ghost predicate Found(start: nat, seen: seq<bool>, u: nat) {
    u == start || (u < |seen| && seen[u])
  }

  /** All edges out of found nodes are followed, but for those that wait on the stack. */
  ghost predicate Followed(g: Graph, start: nat, lo: nat, hi: nat, seen: seq<bool>, waiting: set<nat>) {
    forall u: nat, v: nat {:trigger Edge(g, u, v)} ::
      Edge(g, u, v) && Found(start, seen, u) && u !in waiting && lo <= v <= hi ==> v < |seen| && seen[v]
  }

  ghost predicate SpreadState(g: Graph, start: nat, lo: nat, hi: nat, seen: seq<bool>, stack: seq<nat>) {
    && |seen| == |g| && start < |g|
    && (forall i {:trigger stack[i]} :: 0 <= i < |stack| ==> stack[i] < |g| && Found(start, seen, stack[i]))
    && (forall v: nat {:trigger seen[v]} :: v < |g| && seen[v] ==> Walks(g, start, lo, hi, v))
  }

  lemma MarkNeighbour(
    g: Graph, start: nat, lo: nat, hi: nat, index: nat, next: nat, seen: seq<bool>, stack: seq<nat>)
    requires SpreadState(g, start, lo, hi, seen, stack) && Followed(g, start, lo, hi, seen, Elements(stack) + {index})
    requires Found(start, seen, index) && Edge(g, index, next) && lo <= next <= hi && !seen[next]
    ensures SpreadState(g, start, lo, hi, seen[next := true], stack + [next])
    ensures Followed(g, start, lo, hi, seen[next := true], Elements(stack + [next]) + {index})
    ensures Unvisited(seen[next := true]) < Unvisited(seen)
  {
    assert index < |g| && (index == start || seen[index]);
    WalkEdge(g, start, lo, hi, index, next);
    VisitOne(seen, next);
    var seen', stack' := seen[next := true], stack + [next];
    forall i | 0 <= i < |stack'| ensures stack'[i] < |g| && Found(start, seen', stack'[i]) {
      if i < |stack| { assert stack'[i] == stack[i]; }
    }
    assert stack'[|stack|] == next;
    forall u: nat, v: nat
      | Edge(g, u, v) && Found(start, seen', u) && u !in Elements(stack') + {index} && lo <= v <= hi
      ensures v < |seen'| && seen'[v]
    {
      assert u != next && Found(start, seen, u);
      assert forall w :: w in stack ==> w in stack';
    }
  }

  /** Take one node off the stack and mark its unseen neighbours in the window. */
  method Expand(g: Graph, start: nat, lo: nat, hi: nat, index: nat, seen0: seq<bool>, stack0: seq<nat>)
    returns (seen: seq<bool>, stack: seq<nat>)
    requires WellFormed(g) && SpreadState(g, start, lo, hi, seen0, stack0 + [index])
    requires Followed(g, start, lo, hi, seen0, Elements(stack0 + [index]))
    ensures SpreadState(g, start, lo, hi, seen, stack) && Followed(g, start, lo, hi, seen, Elements(stack))
    ensures Unvisited(seen) < Unvisited(seen0) || (seen == seen0 && stack == stack0)
  {
    seen, stack := seen0, stack0;
    assert (stack0 + [index])[|stack0|] == index;
    assert forall i :: 0 <= i < |stack0| ==> (stack0 + [index])[i] == stack0[i];
    assert Elements(stack0 + [index]) == Elements(stack) + {index};
    for k := 0 to |g[index]|
      invariant SpreadState(g, start, lo, hi, seen, stack)
      invariant Followed(g, start, lo, hi, seen, Elements(stack) + {index})
      invariant Found(start, seen, index)
      invariant forall j :: 0 <= j < k && lo <= g[index][j] <= hi ==> g[index][j] < |seen| && seen[g[index][j]]
      invariant Unvisited(seen) < Unvisited(seen0) || (seen == seen0 && stack == stack0)
    {
      var next := g[index][k];
      assert next in g[index] && Edge(g, index, next);
      if lo <= next <= hi && !seen[next] {
        MarkNeighbour(g, start, lo, hi, index, next, seen, stack);
        seen, stack := seen[next := true], stack + [next];
      }
    }
  }

  /** The nodes a search from `start` marks if it keeps to the window. */
  method Spread(g: Graph, start: nat, lo: nat, hi: nat) returns (seen: seq<bool>)
    requires WellFormed(g) && start < |g|
    ensures |seen| == |g| && forall v: nat :: v < |g| ==> (seen[v] <==> Walks(g, start, lo, hi, v))
  {
    seen := seq(|g|, _ => false);
    var stack := [start];
    while stack != []
      invariant SpreadState(g, start, lo, hi, seen, stack) && Followed(g, start, lo, hi, seen, Elements(stack))
      decreases Unvisited(seen), |stack|
    {
      var index, rest := stack[|stack| - 1], stack[..|stack| - 1];
      assert stack == rest + [index];
      seen, stack := Expand(g, start, lo, hi, index, seen, rest);
    }
    forall v: nat | v < |g| && Walks(g, start, lo, hi, v) ensures seen[v] {
      var p :| Path(g, p) && |p| >= 2 && p[0] == start && p[|p| - 1] == v && forall k :: 0 < k < |p| ==> lo <= p[k] <= hi;
      WalkIsSeen(g, start, lo, hi, seen, p);
    }
  }

  lemma {:induction false} WalkIsSeen(g: Graph, start: nat, lo: nat, hi: nat, seen: seq<bool>, p: seq<nat>)
    requires SpreadState(g, start, lo, hi, seen, []) && Followed(g, start, lo, hi, seen, {})
    requires Path(g, p) && |p| >= 2 && p[0] == start && forall k :: 0 < k < |p| ==> lo <= p[k] <= hi
    ensures seen[p[|p| - 1]]
    decreases |p|
  {
    assert Edge(g, p[|p| - 2], p[|p| - 1]);
    if |p| > 2 {
      PathSlice(g, p, 0, |p| - 1);
      WalkIsSeen(g, start, lo, hi, seen, p[0..|p| - 1]);
    }
  }

  // ---- Walks towards a node, found by searching backwards ---------------------------------------

  /** A nonempty walk from `v` to `goal` whose nodes before the goal are at least `lo`. */
  ghost predicate Arrives(g: Graph, v: nat, goal: nat, lo: nat) {
    exists p :: Path(g, p) && |p| >= 2 && p[0] == v && p[|p| - 1] == goal && forall k :: 0 <= k < |p| - 1 ==> lo <= p[k]
  }

  /** Searching the predecessors from `goal` finds exactly the nodes that arrive there. */
  lemma BackwardSearch(succ: Graph, pred: Graph, v: nat, goal: nat, lo: nat)
    requires IsTranspose(succ, pred)
    ensures Arrives(succ, v, goal, lo) <==> Walks(pred, goal, lo, |pred|, v)
  {
    if Arrives(succ, v, goal, lo) {
      var p :| Path(succ, p) && |p| >= 2 && p[0] == v && p[|p| - 1] == goal && forall k :: 0 <= k < |p| - 1 ==> lo <= p[k];
      ReversedPath(succ, pred, p);
      var r := Reversed(p);
      assert |r| >= 2 && r[0] == goal && r[|r| - 1] == v;
    }
    if Walks(pred, goal, lo, |pred|, v) {
      TransposeSymmetric(succ, pred);
      var p :| Path(pred, p) && |p| >= 2 && p[0] == goal && p[|p| - 1] == v &&
               forall k :: 0 < k < |p| ==> lo <= p[k] <= |pred|;
      ReversedPath(pred, succ, p);
      var r := Reversed(p);
      forall k | 0 <= k < |r| - 1 ensures lo <= r[k] { assert r[k] == p[|p| - 1 - k]; }
      assert |r| >= 2 && r[0] == v && r[|r| - 1] == goal;
    }
  }

  // ---- The boundary between two anchors ---------------------------------------------------------

  /** An Add strictly between two anchors and on a walk from the first to the second. */
  ghost predicate EndsLayer(ops: seq<string>, g: Graph, current: nat, next: nat, v: nat) {
    && current < v < next && v < |ops| && ops[v] == "Add"
    && Walks(g, current, 0, next, v) && Arrives(g, v, next, current)
  }

  /** The last such node. */
  ghost predicate LastEnd(ops: seq<string>, g: Graph, current: nat, next: nat, v: nat) {
    EndsLayer(ops, g, current, next, v) && forall w: nat :: v < w ==> !EndsLayer(ops, g, current, next, w)
  }

  ghost predicate HasEnd(ops: seq<string>, g: Graph, current: nat, next: nat) {
    exists v: nat :: EndsLayer(ops, g, current, next, v)
  }

  method BoundaryBetween(ops: seq<string>, succ: Graph, pred: Graph, current: nat, next: nat) returns (found: Option<nat>)
    requires IsTranspose(succ, pred) && |ops| == |succ| && current < |succ| && next < |succ|
    ensures found.Some? <==> HasEnd(ops, succ, current, next)
    ensures found.Some? ==> LastEnd(ops, succ, current, next, found.value)
  {
    var downstream := Spread(succ, current, 0, next);
    var upstream := Spread(pred, next, current, |pred|);
    var index := next;
    while index > current + 1
      invariant index <= next
      invariant forall w: nat :: index <= w ==> !EndsLayer(ops, succ, current, next, w)
    {
      index := index - 1;
      BackwardSearch(succ, pred, index, next, current);
      if ops[index] == "Add" && downstream[index] && upstream[index] {
        assert EndsLayer(ops, succ, current, next, index);
        return Some(index);
      }
    }
    found := None;
  }

  ghost predicate Boundaries(ops: seq<string>, g: Graph, anchors: seq<nat>, ends: seq<nat>) {
    |ends| < |anchors| && forall i {:trigger ends[i]} :: 0 <= i < |ends| ==> LastEnd(ops, g, anchors[i], anchors[i + 1], ends[i])
  }

  /** The end of each layer between consecutive anchors; no answer if some pair has none. */
  method InferBoundaryIndices(ops: seq<string>, succ: Graph, pred: Graph, anchors: seq<nat>)
    returns (boundaries: Option<seq<nat>>)
    requires IsTranspose(succ, pred) && |ops| == |succ| && Below(anchors, |succ|)
    ensures boundaries.Some? <==>
            |anchors| >= 2 && forall i {:trigger anchors[i]} :: 0 <= i < |anchors| - 1 ==> HasEnd(ops, succ, anchors[i], anchors[i + 1])
    ensures boundaries.Some? ==> |boundaries.value| == |anchors| - 1 && Boundaries(ops, succ, anchors, boundaries.value)
  {
    if |anchors| < 2 { return None; }
    var ends: seq<nat> := [];
    for i := 0 to |anchors| - 1
      invariant |ends| == i && Boundaries(ops, succ, anchors, ends)
    {
      var found := BoundaryBetween(ops, succ, pred, anchors[i], anchors[i + 1]);
      if found.None? {
        assert !HasEnd(ops, succ, anchors[i], anchors[i + 1]);
        return None;
      }
      ends := ends + [found.value];
    }
    forall i | 0 <= i < |anchors| - 1 ensures HasEnd(ops, succ, anchors[i], anchors[i + 1]) {
      assert LastEnd(ops, succ, anchors[i], anchors[i + 1], ends[i]);
    }
    boundaries := Some(ends);
  }

  /** In an ordered graph the pruned searches lose nothing: an end is an Add on any walk between the anchors. */
  lemma OrderedEnds(ops: seq<string>, g: Graph, current: nat, next: nat, v: nat)
    requires Ordered(g) && |ops| == |g|
    ensures EndsLayer(ops, g, current, next, v) <==>
            v < |ops| && ops[v] == "Add" && Reaches(g, current, v) && Reaches(g, v, next)
  {
    if v < |ops| && Reaches(g, current, v) && Reaches(g, v, next) {
      var p :| Path(g, p) && |p| >= 2 && p[0] == current && p[|p| - 1] == v;
      var q :| Path(g, q) && |q| >= 2 && q[0] == v && q[|q| - 1] == next;
      forall k | 0 <= k < |p| ensures p[k] <= v && (k < |p| - 1 ==> p[k] < v) { OrderedAlongPath(g, p, k, |p| - 1); }
      forall k | 0 <= k < |q| ensures v <= q[k] && (k > 0 ==> v < q[k]) { OrderedAlongPath(g, q, 0, k); }
    }
  }

  lemma {:induction false} OrderedAlongPath(g: Graph, p: seq<nat>, i: nat, j: nat)
    requires Ordered(g) && Path(g, p) && i <= j < |p|
    ensures p[i] <= p[j] && (i < j ==> p[i] < p[j])
    decreases j
  {
    if i < j {
      OrderedAlongPath(g, p, i, j - 1);
      assert Edge(g, p[j - 1], p[j]);
    }
  }

  /** An answer exists only for ascending anchors, and separates each anchor from the next. */
  lemma {:induction false} BoundariesSeparate(ops: seq<string>, g: Graph, anchors: seq<nat>, ends: seq<nat>, i: nat, j: nat)
    requires Boundaries(ops, g, anchors, ends) && i <= j < |ends|
    ensures anchors[i] < ends[i] <= ends[j] < anchors[j + 1] && (i < j ==> ends[i] < anchors[j] < ends[j])
    decreases j
  {
    assert LastEnd(ops, g, anchors[j], anchors[j + 1], ends[j]);
    if i < j { BoundariesSeparate(ops, g, anchors, ends, i, j - 1); }
  }

  // ---- How many layers a part holds -------------------------------------------------------------

  ghost predicate Flags(flags: seq<bool>, list: seq<nat>, n: nat) {
    |flags| == n && forall v: nat {:trigger flags[v]} :: v < n ==> (flags[v] <==> v in list)
  }

  predicate Spans(cluster: seq<nat>, from: nat, to: nat) {
    cluster != [] && cluster[0] <= from && to <= cluster[|cluster| - 1]
  }

  /** The layer ends that fall inside a group are members of it. */
  ghost predicate HoldsEnds(anchors: seq<nat>, ends: seq<nat>, cluster: seq<nat>) {
    && |anchors| == |ends| + 1 && StrictlyAscending(cluster)
    && forall i {:trigger ends[i]} :: 0 <= i < |ends| && Spans(cluster, anchors[i], anchors[i + 1]) ==> ends[i] in cluster
  }

  /** An anchor of the list whose layer has not ended yet. */
  ghost predicate OpenAt(anchor: seq<bool>, boundary: seq<bool>, s: seq<nat>, p: nat) {
    && p < |s| && s[p] < |anchor| && anchor[s[p]]
    && forall q {:trigger s[q]} :: p < q < |s| ==> !(s[q] < |boundary| && boundary[s[q]])
  }

  ghost predicate OpenLayer(anchor: seq<bool>, boundary: seq<bool>, s: seq<nat>) {
    exists p: nat :: OpenAt(anchor, boundary, s, p)
  }

  /** Between two anchors of a stretch of the group lies the end of a layer. */
  lemma EndBetween(
    ops: seq<string>, g: Graph, anchors: seq<nat>, ends: seq<nat>, boundary: seq<bool>, cluster: seq<nat>,
    i: nat, j: nat, x: nat, y: nat) returns (q: nat)
    requires Boundaries(ops, g, anchors, ends) && HoldsEnds(anchors, ends, cluster)
    requires Flags(boundary, ends, |ops|)
    requires x < y < |cluster| && i < |anchors| && j < |anchors| && cluster[x] == anchors[i] && cluster[y] == anchors[j]
    ensures x < q < y && cluster[q] < |boundary| && boundary[cluster[q]]
  {
    if j <= i {
      if j < i { BoundariesSeparate(ops, g, anchors, ends, j, i - 1); }
      assert false;
    }
    BoundariesSeparate(ops, g, anchors, ends, i, j - 1);
    BoundariesSeparate(ops, g, anchors, ends, i, i);
    assert cluster[0] <= anchors[i];
    assert anchors[i + 1] <= anchors[j] by {
      if i + 1 < j { BoundariesSeparate(ops, g, anchors, ends, i + 1, j - 1); }
    }
    assert cluster[y] <= cluster[|cluster| - 1];
    assert LastEnd(ops, g, anchors[i], anchors[i + 1], ends[i]);
    q :| 0 <= q < |cluster| && cluster[q] == ends[i];
    assert ends[i] in ends && boundary[ends[i]];
  }

  /** At most one anchor more than layer ends, and only while a layer is open. */
  ghost predicate Alternating(anchor: seq<bool>, boundary: seq<bool>, s: seq<nat>) {
    LayerEnds(anchor, s) <= LayerEnds(boundary, s) + if OpenLayer(anchor, boundary, s) then 1 else 0
  }

  lemma {:induction false} AlternatesOneMore(anchor: seq<bool>, boundary: seq<bool>, s: seq<nat>, v: nat)
    requires Alternating(anchor, boundary, s) && v < |anchor| == |boundary|
    requires anchor[v] ==> !boundary[v] && !OpenLayer(anchor, boundary, s) && OpenLayer(anchor, boundary, s + [v])
    ensures Alternating(anchor, boundary, s + [v])
  {
    LayerEndsSnoc(anchor, s, v);
    LayerEndsSnoc(boundary, s, v);
    if !boundary[v] && OpenLayer(anchor, boundary, s) { StaysOpen(anchor, boundary, s, v); }
  }

  ghost predicate EndLies(boundary: seq<bool>, cluster: seq<nat>, x: nat, y: nat) {
    exists q {:trigger cluster[q]} :: x < q < y < |cluster| && cluster[q] < |boundary| && boundary[cluster[q]]
  }

  /** No anchor ends a layer, and a layer ends between any two anchors of the group. */
  ghost predicate Separated(anchor: seq<bool>, boundary: seq<bool>, cluster: seq<nat>) {
    && |anchor| == |boundary| && Below(cluster, |anchor|)
    && (forall v: nat {:trigger anchor[v]} :: v < |anchor| && anchor[v] ==> !boundary[v])
    && forall x, y {:trigger EndLies(boundary, cluster, x, y)} :: 0 <= x < y < |cluster| && anchor[cluster[x]] && anchor[cluster[y]] ==>
         EndLies(boundary, cluster, x, y)
  }

  /** Anchors and layer ends alternate. */
  lemma {:induction false} Alternate(anchor: seq<bool>, boundary: seq<bool>, s: seq<nat>)
    requires Separated(anchor, boundary, s)
    ensures Alternating(anchor, boundary, s)
  {
    if s != [] {
      var n := |s| - 1;
      SeparatedStretch(anchor, boundary, s, 0, n);
      Alternate(anchor, boundary, s[0..n]);
      if anchor[s[n]] { ClosedBeforeAnchor(anchor, boundary, s); }
      assert s[0..n] + [s[n]] == s;
      AlternatesOneMore(anchor, boundary, s[0..n], s[n]);
    }
  }

  lemma SeparatedStretch(anchor: seq<bool>, boundary: seq<bool>, cluster: seq<nat>, lo: nat, hi: nat)
    requires Separated(anchor, boundary, cluster) && lo <= hi <= |cluster|
    ensures Separated(anchor, boundary, cluster[lo..hi])
  {
    var s := cluster[lo..hi];
    forall x, y | 0 <= x < y < |s| && anchor[s[x]] && anchor[s[y]] ensures EndLies(boundary, s, x, y) {
      assert EndLies(boundary, cluster, lo + x, lo + y);
      var q :| lo + x < q < lo + y && cluster[q] < |boundary| && boundary[cluster[q]];
      assert s[q - lo] == cluster[q];
    }
  }

  lemma StaysOpen(anchor: seq<bool>, boundary: seq<bool>, s: seq<nat>, v: nat)
    requires OpenLayer(anchor, boundary, s) && !(v < |boundary| && boundary[v])
    ensures OpenLayer(anchor, boundary, s + [v])
  {
    var p: nat :| OpenAt(anchor, boundary, s, p);
    var more := s + [v];
    assert more[p] == s[p];
    forall q | p < q < |more| ensures !(more[q] < |boundary| && boundary[more[q]]) {
      if q < |s| { assert more[q] == s[q]; }
    }
    assert OpenAt(anchor, boundary, more, p);
  }

  /** The layer before an anchor has ended, and the anchor opens one. */
  lemma ClosedBeforeAnchor(anchor: seq<bool>, boundary: seq<bool>, s: seq<nat>)
    requires Separated(anchor, boundary, s) && s != [] && anchor[s[|s| - 1]]
    ensures !OpenLayer(anchor, boundary, s[0..|s| - 1]) && OpenLayer(anchor, boundary, s)
  {
    var n := |s| - 1;
    assert OpenAt(anchor, boundary, s, n);
    forall p: nat | p < n && anchor[s[p]] ensures !OpenAt(anchor, boundary, s[0..n], p) {
      assert EndLies(boundary, s, p, n);
      var q :| p < q < n && s[q] < |boundary| && boundary[s[q]];
      assert s[0..n][q] == s[q];
    }
  }

  lemma SeparatedByEnds(
    ops: seq<string>, g: Graph, anchors: seq<nat>, ends: seq<nat>, anchor: seq<bool>, boundary: seq<bool>, cluster: seq<nat>)
    requires Boundaries(ops, g, anchors, ends) && HoldsEnds(anchors, ends, cluster) && Below(cluster, |ops|)
    requires Flags(anchor, anchors, |ops|) && Flags(boundary, ends, |ops|)
    ensures Separated(anchor, boundary, cluster)
  {
    forall v: nat | v < |anchor| && anchor[v] ensures !boundary[v] {
      var j: nat :| j < |anchors| && anchors[j] == v;
      AnchorIsNoEnd(ops, g, anchors, ends, j);
    }
    forall x, y | 0 <= x < y < |cluster| && anchor[cluster[x]] && anchor[cluster[y]] ensures EndLies(boundary, cluster, x, y) {
      var i: nat :| i < |anchors| && anchors[i] == cluster[x];
      var j: nat :| j < |anchors| && anchors[j] == cluster[y];
      var q := EndBetween(ops, g, anchors, ends, boundary, cluster, i, j, x, y);
    }
  }

  lemma AnchorIsNoEnd(ops: seq<string>, g: Graph, anchors: seq<nat>, ends: seq<nat>, j: nat)
    requires Boundaries(ops, g, anchors, ends) && |anchors| == |ends| + 1 && j < |anchors|
    ensures anchors[j] !in ends
  {
    if i :| 0 <= i < |ends| && ends[i] == anchors[j] {
      BoundariesSeparate(ops, g, anchors, ends, i, i);
      if i + 1 < j { BoundariesSeparate(ops, g, anchors, ends, i, j - 1); }
      if i == j - 1 || i == j || i + 1 < j { assert false; }
      BoundariesSeparate(ops, g, anchors, ends, j, i);
    }
  }

  /** A part is a stretch of its group. */
  lemma {:induction false} PartIsStretch(parts: seq<seq<nat>>, j: nat) returns (lo: nat)
    requires j < |parts|
    ensures lo + |parts[j]| <= |Concat(parts)| && Concat(parts)[lo..lo + |parts[j]|] == parts[j]
    decreases |parts|
  {
    var n := |parts| - 1;
    if j == n {
      lo := |Concat(parts[..n])|;
    } else {
      lo := PartIsStretch(parts[..n], j);
      assert Concat(parts)[lo..lo + |parts[j]|] == Concat(parts[..n])[lo..lo + |parts[j]|];
    }
  }

  /**
   Cutting an ascending group at the inferred layer ends puts at most `span` attention anchors, that
   is decoder layers, into any part.
   */
  lemma {:induction false} PartHoldsSpanLayers(
    ops: seq<string>, g: Graph, anchors: seq<nat>, ends: seq<nat>, anchor: seq<bool>, boundary: seq<bool>,
    span: nat, cluster: seq<nat>, parts: seq<seq<nat>>, j: nat)
    requires Boundaries(ops, g, anchors, ends) && HoldsEnds(anchors, ends, cluster)
    requires Flags(anchor, anchors, |ops|) && Flags(boundary, ends, |ops|)
    requires CutOf(boundary, span, cluster, parts) && Below(cluster, |ops|) && span > 0 && j < |parts|
    ensures LayerEnds(anchor, parts[j]) <= span
  {
    var part := parts[j];
    var lo := PartIsStretch(parts, j);
    SeparatedByEnds(ops, g, anchors, ends, anchor, boundary, cluster);
    SeparatedStretch(anchor, boundary, cluster, lo, lo + |part|);
    Alternate(anchor, boundary, part);
  }
}
