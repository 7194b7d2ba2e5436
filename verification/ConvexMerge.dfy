/** The greedy merge: union-find classes of one colour, joined along edges while they stay convex. */
module ConvexMerge {
  import opened Graphs
  import opened Kahn
  import opened Colours
  import opened BitRows
  import opened UnionFind

  // ---- Descendants and ancestors ----------------------------------------------------------------

  ghost function Descendants(g: Graph, u: nat): (below: set<nat>) {
    set w | w in Range(|g|) && Reaches(g, u, w)
  }

  /** What the successors in `vs` and everything below them contribute. */
  ghost function StepReach(g: Graph, vs: seq<nat>): (next: set<nat>) {
    if vs == [] then {}
    else StepReach(g, vs[..|vs| - 1]) + {vs[|vs| - 1]} + Descendants(g, vs[|vs| - 1])
  }

  lemma {:induction false} StepReachMembers(g: Graph, vs: seq<nat>, w: nat)
    ensures w in StepReach(g, vs) <==> w in vs || exists v :: v in vs && w in Descendants(g, v)
  {
    if vs != [] {
      var front, last := vs[..|vs| - 1], vs[|vs| - 1];
      assert vs == front + [last];
      StepReachMembers(g, front, w);
    }
  }

  lemma DescendantsByEdges(g: Graph, u: nat)
    requires WellFormed(g) && u < |g|
    ensures Descendants(g, u) == StepReach(g, g[u])
  {
    forall w: nat ensures w in Descendants(g, u) <==> w in StepReach(g, g[u]) {
      StepReachMembers(g, g[u], w);
      if w in Descendants(g, u) {
        var v := ReachesFirstEdge(g, u, w);
        assert v in g[u] && (v == w || w in Descendants(g, v));
      }
      if w in g[u] { EdgeReaches(g, u, w); }
      if v :| v in g[u] && w in Descendants(g, v) {
        EdgeReaches(g, u, v);
        ReachesTransitive(g, u, v, w);
      }
    }
  }

  ghost predicate Wide(n: nat, rows: seq<Row>) {
    |rows| == n && forall v :: 0 <= v < n ==> |rows[v]| == WordCount(n)
  }

  ghost predicate ExactRows(g: Graph, rows: seq<Row>) {
    |rows| == |g| && forall v :: 0 <= v < |g| ==> Members(rows[v]) == Descendants(g, v)
  }

  /**
   Transitive closure over bit rows. When the order lists every node after its neighbours in `g`,
   each row holds exactly the nodes a nonempty walk leads to.
   */
  method Closure(g: Graph, order: seq<nat>) returns (rows: seq<Row>)
    requires WellFormed(g) && Below(order, |g|)
    ensures Wide(|g|, rows)
    ensures TopologicalOrder(g, order) ==> ExactRows(g, rows)
  {
    var n := |g|;
    rows := seq(n, _ => ZeroRow(n));
    ghost var exact := TopologicalOrder(g, order);
    assert exact ==> ClosedUpTo(g, order, rows, 0);
    for i := 0 to |order|
      invariant Wide(n, rows)
      invariant exact ==> ClosedUpTo(g, order, rows, i)
    {
      if exact { NextRowReady(g, order, rows, i); }
      var row := ClosureRow(g, rows, order[i], exact, order[..i]);
      if exact { CloseRow(g, order, rows, i, row); }
      rows := rows[order[i] := row];
    }
    if exact { AllClosed(g, order, rows); }
  }

  /** The rows of the first `k` nodes are complete and the others are still empty. */
  ghost predicate ClosedUpTo(g: Graph, order: seq<nat>, rows: seq<Row>, k: nat) {
    && k <= |order| && |rows| == |g| && Below(order, |g|)
    && (forall v :: v in order[..k] ==> v < |g| && Members(rows[v]) == Descendants(g, v))
    && forall v {:trigger rows[v]} :: 0 <= v < |g| && v !in order[..k] ==> rows[v] == ZeroRow(|g|)
  }

  lemma NextRowReady(g: Graph, order: seq<nat>, rows: seq<Row>, i: nat)
    requires TopologicalOrder(g, order) && i < |order| && ClosedUpTo(g, order, rows, i)
    ensures rows[order[i]] == ZeroRow(|g|)
    ensures forall v :: v in g[order[i]] ==> v in order[..i]
  {
    assert order[i] !in order[..i];
  }

  lemma CloseRow(g: Graph, order: seq<nat>, rows: seq<Row>, i: nat, row: Row)
    requires WellFormed(g) && i < |order| && ClosedUpTo(g, order, rows, i)
    requires Members(row) == StepReach(g, g[order[i]])
    ensures ClosedUpTo(g, order, rows[order[i] := row], i + 1)
  {
    DescendantsByEdges(g, order[i]);
    assert order[..i + 1] == order[..i] + [order[i]];
  }

  lemma AllClosed(g: Graph, order: seq<nat>, rows: seq<Row>)
    requires TopologicalOrder(g, order) && ClosedUpTo(g, order, rows, |order|)
    ensures ExactRows(g, rows)
  {
    forall v | 0 <= v < |g| ensures Members(rows[v]) == Descendants(g, v) {
      assert v in Elements(order);
      assert order[..|order|] == order;
    }
  }

  method ClosureRow(g: Graph, rows: seq<Row>, node: nat, ghost exact: bool, ghost done: seq<nat>) returns (row: Row)
    requires WellFormed(g) && node < |g| && Wide(|g|, rows)
    requires exact ==> rows[node] == ZeroRow(|g|)
    requires exact ==> forall v :: v in done ==> v < |g| && Members(rows[v]) == Descendants(g, v)
    requires exact ==> forall v :: v in g[node] ==> v in done
    ensures |row| == WordCount(|g|)
    ensures exact ==> Members(row) == StepReach(g, g[node])
  {
    var bits := new Word[|rows[node]|](i requires 0 <= i < |rows[node]| => rows[node][i]);
    assert bits[..] == rows[node];
    ZeroRowIsEmpty(|g|);
    assert g[node][..0] == [];
    for k := 0 to |g[node]|
      invariant exact ==> Members(bits[..]) == StepReach(g, g[node][..k])
    {
      var next := g[node][k];
      assert next in g[node];
      EnoughWords(|g|, next);
      BitSet(bits, next);
      BitOrInto(bits, rows[next]);
      assert g[node][..k + 1][..k] == g[node][..k];
    }
    assert g[node][..|g[node]|] == g[node];
    row := bits[..];
  }

  lemma ReversedWalk(succ: Graph, pred: Graph, u: nat, v: nat)
    requires IsTranspose(succ, pred) && Reaches(succ, u, v)
    ensures Reaches(pred, v, u)
  {
    var p :| Path(succ, p) && |p| >= 2 && p[0] == u && p[|p| - 1] == v;
    ReversedPath(succ, pred, p);
    assert |Reversed(p)| >= 2 && Reversed(p)[0] == v && Reversed(p)[|p| - 1] == u;
  }

  lemma AncestorsAreReversedDescendants(succ: Graph, pred: Graph, u: nat, v: nat)
    requires IsTranspose(succ, pred)
    ensures Reaches(succ, u, v) <==> Reaches(pred, v, u)
  {
    TransposeSymmetric(succ, pred);
    if Reaches(succ, u, v) { ReversedWalk(succ, pred, u, v); }
    if Reaches(pred, v, u) { ReversedWalk(pred, succ, v, u); }
  }

  lemma ReversedOrder(succ: Graph, pred: Graph, order: seq<nat>)
    requires IsTranspose(succ, pred) && TopologicalOrder(pred, order)
    ensures TopologicalOrder(succ, Reversed(order))
  {
    var r := Reversed(order);
    OrderRanks(succ, pred, order);
    forall i, v | 0 <= i < |r| && v in succ[r[i]] ensures v in r[..i] {
      assert Edge(succ, r[i], v);
      var p := PositionIn(order, v);
      FirstPosition(order, r[i], |r| - 1 - i);
      var q := PositionIn(order, r[i]);
      assert q == |r| - 1 - i;
      assert r[..i][|r| - 1 - p] == v;
    }
    forall v ensures v in Elements(r) <==> v in Elements(order) {
      if v in r { var i :| 0 <= i < |r| && r[i] == v; assert order[|r| - 1 - i] == v; }
      if v in order { var i :| 0 <= i < |r| && order[i] == v; assert r[|r| - 1 - i] == v; }
    }
  }

  // ---- Classes of the union-find ----------------------------------------------------------------

  ghost function ClassOf(c: Colouring, rep: seq<nat>, root: nat): (s: set<nat>)
    ensures forall v {:trigger v in s} :: v in s <==> 0 <= v < |rep| && |rep| == |c.supported| && c.supported[v] && rep[v] == root
  {
    set v | v in Range(|rep|) && |rep| == |c.supported| && c.supported[v] && rep[v] == root
  }

  ghost function UnionOver(sets: seq<set<nat>>, nodes: set<nat>): (s: set<nat>)
    ensures forall w {:trigger w in s} :: w in s <==> exists v :: v in nodes && v < |sets| && w in sets[v]
  {
    set v, w | v in nodes && v < |sets| && w in sets[v] :: w
  }

  ghost function Downward(g: Graph): (d: seq<set<nat>>)
    ensures |d| == |g| && forall v :: 0 <= v < |g| ==> d[v] == Descendants(g, v)
  {
    seq(|g|, v requires 0 <= v < |g| => Descendants(g, v))
  }

  /** Nothing below and above the members lies outside them. */
  ghost predicate Closed(down: seq<set<nat>>, up: seq<set<nat>>, s: set<nat>) {
    UnionOver(down, s) * UnionOver(up, s) <= s
  }

  /** The set test used on rows is exactly convexity of the graph. */
  lemma ClosedIsConvex(succ: Graph, pred: Graph, s: set<nat>)
    requires IsTranspose(succ, pred) && s <= Range(|succ|)
    ensures Closed(Downward(succ), Downward(pred), s) <==> Convex(succ, s)
  {
    var down, up := Downward(succ), Downward(pred);
    ConvexIffNothingBetween(succ, s);
    forall a: nat, x: nat | a < |succ| && x < |succ|
      ensures x in down[a] <==> Reaches(succ, a, x)
      ensures x in up[a] <==> Reaches(succ, x, a)
    {
      AncestorsAreReversedDescendants(succ, pred, x, a);
    }
    if Closed(down, up, s) {
      forall a, x, b | a in s && b in s && Reaches(succ, a, x) && Reaches(succ, x, b) ensures x in s {
        assert x in UnionOver(down, s) && x in UnionOver(up, s);
      }
    }
  }

  /** The row of every root holds what `sets` assigns to the members of its class. */
  ghost predicate Tracks(c: Colouring, rep: seq<nat>, sets: seq<set<nat>>, rows: seq<Row>) {
    && |rep| == |rows| == |c.supported|
    && Wide(|rep|, rows)
    && forall r {:trigger rows[r]} :: 0 <= r < |rep| && c.supported[r] && rep[r] == r ==>
         Members(rows[r]) == UnionOver(sets, ClassOf(c, rep, r))
  }

  ghost function Singletons(n: nat): (sets: seq<set<nat>>)
    ensures |sets| == n && forall v :: 0 <= v < n ==> sets[v] == {v}
  {
    seq(n, v requires 0 <= v < n => {v})
  }

  /** Classes hold supported nodes of one colour, and unsupported nodes stay alone. */
  ghost predicate ColouredClasses(c: Colouring, rep: seq<nat>) {
    && c.Valid(|rep|)
    && forall v {:trigger rep[v]} :: 0 <= v < |rep| ==>
         && rep[v] < |rep| && rep[rep[v]] == rep[v]
         && if c.supported[v] then c.Compatible(rep[v], v) else rep[v] == v
  }

  ghost predicate ClosedClasses(c: Colouring, down: seq<set<nat>>, up: seq<set<nat>>, rep: seq<nat>) {
    forall r :: 0 <= r < |rep| ==> Closed(down, up, ClassOf(c, rep, r))
  }

  ghost function Roots(rep: seq<nat>): (roots: set<nat>) {
    set v | v in Range(|rep|) && rep[v] == v
  }

  ghost function RootCount(rep: seq<nat>): (n: nat) {
    |Roots(rep)|
  }

  /** An edge between mergeable nodes whose classes may not be joined. */
  ghost predicate Blocked(
    c: Colouring, down: seq<set<nat>>, up: seq<set<nat>>, rep: seq<nat>, e: (nat, nat))
    requires e.0 < |rep| && e.1 < |rep|
  {
    rep[e.0] == rep[e.1] || !Closed(down, up, ClassOf(c, rep, rep[e.0]) + ClassOf(c, rep, rep[e.1]))
  }

  lemma JoinedClasses(c: Colouring, rep: seq<nat>, left: nat, right: nat)
    requires ColouredClasses(c, rep) && left < |rep| && right < |rep| && left != right
    requires rep[left] == left && rep[right] == right && c.Compatible(left, right)
    ensures ColouredClasses(c, Joined(rep, left, right))
    ensures forall r :: 0 <= r < |rep| ==>
              ClassOf(c, Joined(rep, left, right), r) ==
              if r == left then ClassOf(c, rep, left) + ClassOf(c, rep, right)
              else if r == right then {} else ClassOf(c, rep, r)
    ensures Roots(Joined(rep, left, right)) == Roots(rep) - {right}
  {
  }

  lemma JoinedTracks(
    c: Colouring, rep: seq<nat>, sets: seq<set<nat>>, rows: seq<Row>, left: nat, right: nat, merged: Row)
    requires Tracks(c, rep, sets, rows) && ColouredClasses(c, rep)
    requires left < |rep| && right < |rep| && left != right
    requires rep[left] == left && rep[right] == right && c.Compatible(left, right)
    requires |merged| == WordCount(|rep|) && Members(merged) == Members(rows[left]) + Members(rows[right])
    ensures Tracks(c, Joined(rep, left, right), sets, rows[left := merged])
  {
    JoinedClasses(c, rep, left, right);
    UnionDistributes(sets, ClassOf(c, rep, left), ClassOf(c, rep, right));
  }

  lemma UnionDistributes(sets: seq<set<nat>>, a: set<nat>, b: set<nat>)
    ensures UnionOver(sets, a + b) == UnionOver(sets, a) + UnionOver(sets, b)
  {
  }

  method MergedRow(left: Row, right: Row) returns (merged: Row)
    requires |left| == |right|
    ensures |merged| == |left| && Members(merged) == Members(left) + Members(right)
  {
    var bits := new Word[|left|](i requires 0 <= i < |left| => left[i]);
    assert bits[..] == left;
    BitOrInto(bits, right);
    merged := bits[..];
  }

  /** The three row tables kept per root, and the sets they track. */
  datatype Tables = Tables(members: seq<Row>, below: seq<Row>, above: seq<Row>)

  ghost predicate MergeState(
    c: Colouring, down: seq<set<nat>>, up: seq<set<nat>>, parent: seq<nat>, rep: seq<nat>, height: seq<nat>,
    t: Tables)
  {
    && Forest(parent, rep, height)
    && ColouredClasses(c, rep)
    && Tracks(c, rep, Singletons(|rep|), t.members)
    && Tracks(c, rep, down, t.below)
    && Tracks(c, rep, up, t.above)
  }

  /** Merge the three rows of two roots and test the result for convexity. */
  method TestMerge(t: Tables, left: nat, right: nat) returns (convex: bool, members: Row, below: Row, above: Row)
    requires left < |t.members| == |t.below| == |t.above| && right < |t.members|
    requires |t.members[left]| == |t.below[left]| == |t.above[left]|
    requires |t.members[right]| == |t.below[right]| == |t.above[right]| == |t.members[left]|
    ensures |members| == |below| == |above| == |t.members[left]|
    ensures Members(members) == Members(t.members[left]) + Members(t.members[right])
    ensures Members(below) == Members(t.below[left]) + Members(t.below[right])
    ensures Members(above) == Members(t.above[left]) + Members(t.above[right])
    ensures convex <==> Members(below) * Members(above) <= Members(members)
  {
    members := MergedRow(t.members[left], t.members[right]);
    below := MergedRow(t.below[left], t.below[right]);
    above := MergedRow(t.above[left], t.above[right]);
    convex := ConvexBitsets(members, below, above);
  }

  lemma SingletonsTrackMembers(n: nat, s: set<nat>)
    requires forall v :: v in s ==> v < n
    ensures UnionOver(Singletons(n), s) == s
  {
  }

  lemma ClosedUnion(down: seq<set<nat>>, up: seq<set<nat>>, a: set<nat>, b: set<nat>)
    ensures Closed(down, up, a + b) <==>
            (UnionOver(down, a) + UnionOver(down, b)) * (UnionOver(up, a) + UnionOver(up, b)) <= a + b
  {
    UnionDistributes(down, a, b);
    UnionDistributes(up, a, b);
  }

  /** Join the classes of one edge if the union stays closed. */
  method MergeEdge(
    c: Colouring, left: nat, right: nat, parent: array<nat>, t: Tables,
    ghost down: seq<set<nat>>, ghost up: seq<set<nat>>, ghost rep: seq<nat>, ghost height: seq<nat>)
    returns (joined: bool, next: Tables, ghost rep': seq<nat>, ghost height': seq<nat>)
    requires MergeState(c, down, up, parent[..], rep, height, t)
    requires left < |rep| && right < |rep| && c.Compatible(left, right)
    modifies parent
    ensures |rep'| == |rep| && MergeState(c, down, up, parent[..], rep', height', next)
    ensures if joined then RootCount(rep') < RootCount(rep) else rep' == rep && Blocked(c, down, up, rep, (left, right))
    ensures ClosedClasses(c, down, up, rep) ==> ClosedClasses(c, down, up, rep')
  {
    var leftRoot := UfFind(parent, left, rep, height);
    var rightRoot := UfFind(parent, right, rep, height);
    joined, next, rep', height' := false, t, rep, height;
    if leftRoot == rightRoot { return; }
    var convex, members, below, above := TestMerge(t, leftRoot, rightRoot);
    ghost var a, b := ClassOf(c, rep, leftRoot), ClassOf(c, rep, rightRoot);
    SingletonsTrackMembers(|rep|, a);
    SingletonsTrackMembers(|rep|, b);
    ClosedUnion(down, up, a, b);
    if !convex { return; }
    JoinRoots(parent[..], rep, height, leftRoot, rightRoot);
    ghost var links := parent[..];
    parent[rightRoot] := leftRoot;
    assert parent[..] == links[rightRoot := leftRoot];
    joined := true;
    next := Tables(t.members[leftRoot := members], t.below[leftRoot := below], t.above[leftRoot := above]);
    rep', height' := Joined(rep, leftRoot, rightRoot), Taller(height, leftRoot, rightRoot);
    JoinedState(c, down, up, links, rep, height, t, leftRoot, rightRoot, members, below, above);
  }

  lemma JoinedState(
    c: Colouring, down: seq<set<nat>>, up: seq<set<nat>>, parent: seq<nat>, rep: seq<nat>, height: seq<nat>,
    t: Tables, left: nat, right: nat, members: Row, below: Row, above: Row)
    requires MergeState(c, down, up, parent, rep, height, t)
    requires left < |rep| && right < |rep| && left != right && c.Compatible(left, right)
    requires rep[left] == left && rep[right] == right
    requires |members| == |below| == |above| == WordCount(|rep|)
    requires Members(members) == Members(t.members[left]) + Members(t.members[right])
    requires Members(below) == Members(t.below[left]) + Members(t.below[right])
    requires Members(above) == Members(t.above[left]) + Members(t.above[right])
    requires Closed(down, up, ClassOf(c, rep, left) + ClassOf(c, rep, right))
    ensures MergeState(c, down, up, parent[right := left], Joined(rep, left, right), Taller(height, left, right),
                       Tables(t.members[left := members], t.below[left := below], t.above[left := above]))
    ensures RootCount(Joined(rep, left, right)) < RootCount(rep)
    ensures ClosedClasses(c, down, up, rep) ==> ClosedClasses(c, down, up, Joined(rep, left, right))
  {
    JoinRoots(parent, rep, height, left, right);
    JoinedClasses(c, rep, left, right);
    JoinedTracks(c, rep, Singletons(|rep|), t.members, left, right, members);
    JoinedTracks(c, rep, down, t.below, left, right, below);
    JoinedTracks(c, rep, up, t.above, left, right, above);
    assert right in Roots(rep);
    if ClosedClasses(c, down, up, rep) { JoinedClosed(c, down, up, rep, left, right); }
  }

  lemma JoinedClosed(c: Colouring, down: seq<set<nat>>, up: seq<set<nat>>, rep: seq<nat>, left: nat, right: nat)
    requires ColouredClasses(c, rep) && left < |rep| && right < |rep| && left != right
    requires rep[left] == left && rep[right] == right && c.Compatible(left, right)
    requires ClosedClasses(c, down, up, rep)
    requires Closed(down, up, ClassOf(c, rep, left) + ClassOf(c, rep, right))
    ensures ClosedClasses(c, down, up, Joined(rep, left, right))
  {
    JoinedClasses(c, rep, left, right);
    assert Closed(down, up, {});
  }

  ghost predicate BlockedUpTo(
    c: Colouring, down: seq<set<nat>>, up: seq<set<nat>>, rep: seq<nat>, edges: seq<(nat, nat)>, n: nat)
  {
    forall i :: 0 <= i < n && i < |edges| && edges[i].0 < |rep| && edges[i].1 < |rep| ==>
      Blocked(c, down, up, rep, edges[i])
  }

  /** One pass over the edges; if it joins nothing, every edge is blocked. */
  method MergePass(
    c: Colouring, edges: seq<(nat, nat)>, parent: array<nat>, initial: Tables,
    ghost down: seq<set<nat>>, ghost up: seq<set<nat>>, ghost rep0: seq<nat>, ghost height0: seq<nat>)
    returns (changed: bool, tables: Tables, ghost rep: seq<nat>, ghost height: seq<nat>)
    requires forall i :: 0 <= i < |edges| ==>
               edges[i].0 < |rep0| == |c.supported| && edges[i].1 < |rep0| && c.Valid(|rep0|)
               && c.Compatible(edges[i].0, edges[i].1)
    requires MergeState(c, down, up, parent[..], rep0, height0, initial)
    modifies parent
    ensures |rep| == |rep0| && MergeState(c, down, up, parent[..], rep, height, tables)
    ensures ClosedClasses(c, down, up, rep0) ==> ClosedClasses(c, down, up, rep)
    ensures if changed then RootCount(rep) < RootCount(rep0) else rep == rep0 && BlockedUpTo(c, down, up, rep, edges, |edges|)
  {
    changed, tables, rep, height := false, initial, rep0, height0;
    for i := 0 to |edges|
      invariant |rep| == |rep0| && MergeState(c, down, up, parent[..], rep, height, tables)
      invariant ClosedClasses(c, down, up, rep0) ==> ClosedClasses(c, down, up, rep)
      invariant if changed then RootCount(rep) < RootCount(rep0) else rep == rep0 && BlockedUpTo(c, down, up, rep, edges, i)
    {
      var joined;
      joined, tables, rep, height :=
        MergeEdge(c, edges[i].0, edges[i].1, parent, tables, down, up, rep, height);
      changed := changed || joined;
    }
  }

  /**
   Join classes along the edges until nothing changes. Every class stays closed if single nodes are,
   and at the end no edge leads between two classes whose union would be closed.
   */
  method MergeAlong(
    c: Colouring, edges: seq<(nat, nat)>, parent: array<nat>, initial: Tables,
    ghost down: seq<set<nat>>, ghost up: seq<set<nat>>, ghost rep0: seq<nat>, ghost height0: seq<nat>)
    returns (ghost rep: seq<nat>, ghost height: seq<nat>)
    requires forall i :: 0 <= i < |edges| ==>
               edges[i].0 < |rep0| == |c.supported| && edges[i].1 < |rep0| && c.Valid(|rep0|)
               && c.Compatible(edges[i].0, edges[i].1)
    requires MergeState(c, down, up, parent[..], rep0, height0, initial)
    modifies parent
    ensures |rep| == |rep0| && Forest(parent[..], rep, height) && ColouredClasses(c, rep)
    ensures ClosedClasses(c, down, up, rep0) ==> ClosedClasses(c, down, up, rep)
    ensures BlockedUpTo(c, down, up, rep, edges, |edges|)
  {
    rep, height := rep0, height0;
    var tables := initial;
    var changed := true;
    while changed
      invariant |rep| == |rep0| && MergeState(c, down, up, parent[..], rep, height, tables)
      invariant ClosedClasses(c, down, up, rep0) ==> ClosedClasses(c, down, up, rep)
      invariant !changed ==> BlockedUpTo(c, down, up, rep, edges, |edges|)
      decreases RootCount(rep), changed
    {
      changed, tables, rep, height := MergePass(c, edges, parent, tables, down, up, rep, height);
    }
  }
}
