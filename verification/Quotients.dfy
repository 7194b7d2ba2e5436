/** Contracting units of nodes to single nodes, and expanding a grouping of units back to nodes. */
module Quotients {
  import opened Graphs
  import opened Kahn
  import opened Colours
  import opened Sorting

  /** `owner` names the one unit that holds each node. */
  ghost predicate Owns(units: seq<seq<nat>>, owner: seq<nat>) {
    && (forall v {:trigger owner[v]} :: 0 <= v < |owner| ==> owner[v] < |units| && v in units[owner[v]])
    && forall i, v {:trigger v in units[i]} :: 0 <= i < |units| && v in units[i] ==> v < |owner| && owner[v] == i
  }

  /** `q` has an edge between two units exactly when some edge of `g` crosses from one to the other. */
  ghost predicate IsQuotient(g: Graph, owner: seq<nat>, q: Graph) {
    && |owner| == |g|
    && (forall v :: 0 <= v < |owner| ==> owner[v] < |q|)
    && (forall u: nat, v: nat :: Edge(g, u, v) && owner[u] != owner[v] ==> Edge(q, owner[u], owner[v]))
    && forall a: nat, b: nat :: Edge(q, a, b) ==> a != b && CrossingEdge(g, owner, a, b)
  }

  ghost predicate CrossingEdge(g: Graph, owner: seq<nat>, a: nat, b: nat) {
    |owner| == |g| && exists u: nat, v: nat :: Edge(g, u, v) && owner[u] == a && owner[v] == b
  }

  // ---- Building the quotient --------------------------------------------------------------------

  lemma CoverOneMore(units: seq<seq<nat>>, nodes: set<nat>, v: nat)
    requires ExactCover(units, nodes) && v !in nodes
    ensures ExactCover(units + [[v]], nodes + {v})
  {
    OccurrencesAppend(units, [[v]]);
    SingleOccurrence([v]);
    assert multiset(nodes + {v}) == multiset(nodes) + multiset{v};
  }

  /** Nodes below `k`, and all taken ones. */
  ghost function CoveredBelow(taken: seq<bool>, k: nat): (s: set<nat>)
    ensures forall v: nat {:trigger v in s} :: v in s <==> v < |taken| && (v < k || taken[v])
  {
    set v | v in Range(|taken|) && (v < k || taken[v])
  }

  lemma CoverNext(units: seq<seq<nat>>, taken: seq<bool>, k: nat)
    requires k < |taken| && ExactCover(units, CoveredBelow(taken, k))
    ensures taken[k] ==> ExactCover(units, CoveredBelow(taken, k + 1))
    ensures !taken[k] ==> ExactCover(units + [[k]], CoveredBelow(taken, k + 1))
  {
    var now, next := CoveredBelow(taken, k), CoveredBelow(taken, k + 1);
    if taken[k] {
      assert next == now;
    } else {
      assert next == now + {k};
      CoverOneMore(units, now, k);
    }
  }

  ghost predicate AllSingle(singles: seq<seq<nat>>, taken: seq<bool>) {
    forall c {:trigger c in singles} :: c in singles ==> |c| == 1 && c[0] < |taken| && !taken[c[0]]
  }

  lemma OneMoreSingle(units0: seq<seq<nat>>, singles: seq<seq<nat>>, taken: seq<bool>, v: nat)
    requires AllSingle(singles, taken) && v < |taken| && !taken[v]
    ensures AllSingle(singles + [[v]], taken)
    ensures units0 + singles + [[v]] == units0 + (singles + [[v]])
  {
  }

  /** Add every node that is not taken as a unit of its own. */
  method AddSingles(units0: seq<seq<nat>>, taken: seq<bool>, ghost covered: set<nat>)
    returns (units: seq<seq<nat>>, ghost singles: seq<seq<nat>>)
    requires ExactCover(units0, covered)
    requires forall v: nat :: v in covered <==> v < |taken| && taken[v]
    ensures units == units0 + singles && AllSingle(singles, taken)
    ensures ExactCover(units, Range(|taken|))
  {
    units, singles := units0, [];
    assert covered == CoveredBelow(taken, 0);
    for v := 0 to |taken|
      invariant units == units0 + singles && AllSingle(singles, taken)
      invariant ExactCover(units, CoveredBelow(taken, v))
    {
      CoverNext(units, taken, v);
      if !taken[v] {
        OneMoreSingle(units0, singles, taken, v);
        units, singles := units + [[v]], singles + [[v]];
      }
    }
    assert CoveredBelow(taken, |taken|) == Range(|taken|);
  }

  ghost predicate OwnedBy(units: seq<seq<nat>>, owner: seq<nat>, i: nat, nodes: seq<nat>) {
    forall v {:trigger v in nodes} :: v in nodes ==> v < |owner| && owner[v] == i
  }

  lemma CoverIsDisjoint(units: seq<seq<nat>>, n: nat, i: nat, j: nat, v: nat)
    requires ExactCover(units, Range(n)) && i < |units| && j < |units| && v in units[i]
    ensures v < n
    ensures v in units[j] ==> i == j
  {
    OccurrenceHasGroup(units, v);
    assert v in multiset(Range(n)) && multiset(Range(n))[v] <= 1;
    if v in units[j] { NodeHasOneGroup(units, i, j, v); }
  }

  method OwnersOf(units: seq<seq<nat>>, n: nat) returns (owner: seq<nat>)
    requires ExactCover(units, Range(n))
    ensures |owner| == n && Owns(units, owner)
  {
    owner := seq(n, _ => 0);
    for i := 0 to |units|
      invariant |owner| == n
      invariant forall j :: 0 <= j < i ==> OwnedBy(units, owner, j, units[j])
    {
      for k := 0 to |units[i]|
        invariant |owner| == n
        invariant forall j :: 0 <= j < i ==> OwnedBy(units, owner, j, units[j])
        invariant OwnedBy(units, owner, i, units[i][..k])
      {
        var v := units[i][k];
        assert v in units[i];
        forall j | 0 <= j <= i ensures v < n && (v in units[j] ==> i == j) { CoverIsDisjoint(units, n, i, j, v); }
        owner := owner[v := i];
        assert units[i][..k + 1] == units[i][..k] + [v];
      }
      assert units[i][..|units[i]|] == units[i];
    }
    forall v | 0 <= v < n ensures owner[v] < |units| && v in units[owner[v]] {
      assert v in multiset(Range(n));
      OccurrenceHasGroup(units, v);
      var c :| c in units && v in c;
      var i :| 0 <= i < |units| && units[i] == c;
      assert OwnedBy(units, owner, i, units[i]);
    }
    forall i, v | 0 <= i < |units| && v in units[i] ensures v < n && owner[v] == i {
      assert OwnedBy(units, owner, i, units[i]);
    }
  }

  /** List a set once each, in some order. */
  method Listing(s: set<nat>) returns (list: seq<nat>)
    ensures NoDup(list) && Elements(list) == s
  {
    list := [];
    var rest := s;
    while rest != {}
      invariant NoDup(list) && rest <= s && Elements(list) == s - rest
      decreases rest
    {
      var v :| v in rest;
      rest := rest - {v};
      assert v !in Elements(list);
      assert Elements(list + [v]) == Elements(list) + {v};
      list := list + [v];
    }
  }

  /** The set of units each unit feeds. */
  method CrossingSets(g: Graph, owner: seq<nat>, m: nat) returns (edges: seq<set<nat>>)
    requires WellFormed(g) && |owner| == |g| && forall v :: 0 <= v < |owner| ==> owner[v] < m
    ensures |edges| == m
    ensures forall a, b :: 0 <= a < m && b in edges[a] ==> a != b && b < m && CrossingEdge(g, owner, a, b)
    ensures forall u: nat, v: nat :: Edge(g, u, v) && owner[u] != owner[v] ==> owner[v] in edges[owner[u]]
  {
    edges := seq(m, _ => {});
    for node := 0 to |g|
      invariant |edges| == m
      invariant forall a, b :: 0 <= a < m && b in edges[a] ==> a != b && b < m && CrossingEdge(g, owner, a, b)
      invariant forall u: nat, v: nat :: u < node && Edge(g, u, v) && owner[u] != owner[v] ==> owner[v] in edges[owner[u]]
    {
      for k := 0 to |g[node]|
        invariant |edges| == m
        invariant forall a, b :: 0 <= a < m && b in edges[a] ==> a != b && b < m && CrossingEdge(g, owner, a, b)
        invariant forall u: nat, v: nat :: u < node && Edge(g, u, v) && owner[u] != owner[v] ==> owner[v] in edges[owner[u]]
        invariant forall v: nat :: v in g[node][..k] && v < |g| && owner[node] != owner[v] ==> owner[v] in edges[owner[node]]
      {
        var next := g[node][k];
        assert next in g[node];
        assert Edge(g, node, next);
        var from, to := owner[node], owner[next];
        if from != to { edges := edges[from := edges[from] + {to}]; }
        assert g[node][..k + 1] == g[node][..k] + [next];
      }
      assert g[node][..|g[node]|] == g[node];
    }
  }

  ghost predicate PushedUpTo(succ: Graph, pred: Graph, from: nat, k: nat) {
    && |pred| == |succ|
    && WellFormed(pred)
    && from <= |succ| && (from < |succ| ==> k <= |succ[from]|)
    && forall u, v {:trigger multiset(pred[v])[u]} :: 0 <= u < |succ| && 0 <= v < |succ| ==>
         multiset(pred[v])[u] ==
         if u < from then multiset(succ[u])[v] else if u == from then multiset(succ[from][..k])[v] else 0
  }

  /** Incoming lists from outgoing lists. */
  method Transpose(succ: Graph) returns (pred: Graph)
    requires WellFormed(succ)
    ensures IsTranspose(succ, pred)
  {
    var n := |succ|;
    pred := seq(n, _ => []);
    for from := 0 to n
      invariant PushedUpTo(succ, pred, from, 0)
    {
      for k := 0 to |succ[from]|
        invariant PushedUpTo(succ, pred, from, k)
      {
        var to := succ[from][k];
        assert to in succ[from];
        assert succ[from][..k + 1] == succ[from][..k] + [to];
        pred := pred[to := pred[to] + [from]];
      }
      assert succ[from][..|succ[from]|] == succ[from];
    }
  }

  /** The contracted graph, as duplicate-free adjacency lists in both directions. */
  method QuotientLists(g: Graph, owner: seq<nat>, m: nat) returns (succ: Graph, pred: Graph)
    requires WellFormed(g) && |owner| == |g| && forall v :: 0 <= v < |owner| ==> owner[v] < m
    ensures |succ| == m && IsTranspose(succ, pred) && IsQuotient(g, owner, succ)
  {
    var edges := CrossingSets(g, owner, m);
    succ := [];
    for a := 0 to m
      invariant |succ| == a && forall i :: 0 <= i < a ==> NoDup(succ[i]) && Elements(succ[i]) == edges[i]
    {
      var list := Listing(edges[a]);
      succ := succ + [list];
    }
    forall a, b | 0 <= a < m ensures b in succ[a] <==> b in edges[a] { assert b in succ[a] <==> b in Elements(succ[a]); }
    pred := Transpose(succ);
  }

  // ---- What a schedule of the quotient says about the graph -------------------------------------

  lemma QuotientScheduleIsGroupSchedule(g: Graph, units: seq<seq<nat>>, owner: seq<nat>, q: Graph)
    requires Owns(units, owner) && IsQuotient(g, owner, q) && |q| == |units|
    ensures Acyclic(q) <==> AcyclicQuotient(g, units)
  {
    if Acyclic(q) {
      var r :| IsRank(q, r);
      var rank: seq<nat> := seq(|g|, v requires 0 <= v < |g| => r[owner[v]]);
      forall u: nat, v: nat | Edge(g, u, v) ensures Together(units, u, v) || rank[u] < rank[v] {
        if owner[u] == owner[v] {
          assert units[owner[u]] in units && u in units[owner[u]] && v in units[owner[v]];
        } else {
          assert Edge(q, owner[u], owner[v]);
        }
      }
      assert QuotientRank(g, units, rank);
    }
    if AcyclicQuotient(g, units) {
      var rank :| QuotientRank(g, units, rank);
      var r: seq<nat> := seq(|q|, i requires 0 <= i < |q| => UnitRank(units, rank, i));
      forall a: nat, b: nat | Edge(q, a, b) ensures r[a] < r[b] {
        var u: nat, v: nat :| Edge(g, u, v) && owner[u] == a && owner[v] == b;
        assert u in units[a] && v in units[b];
        assert units[a] in units && units[b] in units;
        OwnsTogether(units, owner, u, v);
        assert units[a][0] in units[a] && units[b][0] in units[b];
      }
      assert IsRank(q, r);
    }
  }

  lemma OwnsTogether(units: seq<seq<nat>>, owner: seq<nat>, u: nat, v: nat)
    requires Owns(units, owner) && u < |owner| && v < |owner|
    ensures Together(units, u, v) ==> owner[u] == owner[v]
  {
    if Together(units, u, v) && u != v {
      var c :| c in units && u in c && v in c;
      var i :| 0 <= i < |units| && units[i] == c;
      assert u in units[i] && v in units[i];
    }
  }

  ghost function UnitRank(units: seq<seq<nat>>, rank: seq<nat>, i: nat): (n: nat) {
    if i < |units| && units[i] != [] && units[i][0] < |rank| then rank[units[i][0]] else 0
  }

  /** Groups of a single node say nothing. */
  lemma SinglesSayNothing(g: Graph, groups: seq<seq<nat>>, singles: seq<seq<nat>>)
    requires forall c :: c in singles ==> |c| == 1 && c[0] < |g|
    ensures AcyclicQuotient(g, groups + singles) <==> AcyclicQuotient(g, groups)
  {
    if AcyclicQuotient(g, groups) {
      var rank :| QuotientRank(g, groups, rank);
      forall u: nat, v: nat | Edge(g, u, v) ensures Together(groups + singles, u, v) || rank[u] < rank[v] {
        if Together(groups, u, v) && u != v {
          var c :| c in groups && u in c && v in c;
          assert c in groups + singles;
        }
      }
      assert QuotientRank(g, groups + singles, rank);
    }
    if AcyclicQuotient(g, groups + singles) {
      var rank :| QuotientRank(g, groups + singles, rank);
      forall c | c in groups ensures c in groups + singles {}
      forall u: nat, v: nat | Edge(g, u, v) ensures Together(groups, u, v) || rank[u] < rank[v] {
        if Together(groups + singles, u, v) && u != v {
          var c :| c in groups + singles && u in c && v in c;
          assert c !in singles;
        }
      }
      assert QuotientRank(g, groups, rank);
    }
  }

  // ---- Expanding groups of units ----------------------------------------------------------------

  ghost predicate ExpandsTo(units: seq<seq<nat>>, unitGroup: seq<nat>, group: seq<nat>) {
    && NoDup(group)
    && (forall i :: i in unitGroup ==> i < |units|)
    && forall v :: v in group <==> exists i :: i in unitGroup && i < |units| && v in units[i]
  }

  ghost predicate ExpandsAll(units: seq<seq<nat>>, unitGroups: seq<seq<nat>>, groups: seq<seq<nat>>) {
    |groups| == |unitGroups| && forall k :: 0 <= k < |groups| ==> ExpandsTo(units, unitGroups[k], groups[k])
  }

  lemma ExpandedTogether(
    units: seq<seq<nat>>, owner: seq<nat>, unitGroups: seq<seq<nat>>, groups: seq<seq<nat>>, u: nat, v: nat)
    requires Owns(units, owner) && ExpandsAll(units, unitGroups, groups) && u < |owner| && v < |owner|
    ensures Together(groups, u, v) ==> Together(unitGroups, owner[u], owner[v])
    ensures owner[u] != owner[v] && Together(unitGroups, owner[u], owner[v]) ==> Together(groups, u, v)
    ensures (exists ug :: ug in unitGroups && owner[u] in ug) && owner[u] == owner[v] ==> Together(groups, u, v)
  {
    if Together(groups, u, v) && u != v {
      var c :| c in groups && u in c && v in c;
      var k :| 0 <= k < |groups| && groups[k] == c;
      assert ExpandsTo(units, unitGroups[k], groups[k]);
      assert unitGroups[k] in unitGroups;
    }
    if ug :| ug in unitGroups && owner[u] in ug && owner[v] in ug {
      var k :| 0 <= k < |unitGroups| && unitGroups[k] == ug;
      assert ExpandsTo(units, unitGroups[k], groups[k]);
      assert u in units[owner[u]] && v in units[owner[v]];
      assert u in groups[k] && v in groups[k] && groups[k] in groups;
    }
  }

  /** If grouping the units leaves a schedulable quotient, so does grouping their nodes. */
  lemma ExpansionKeepsQuotientAcyclic(
    g: Graph, units: seq<seq<nat>>, owner: seq<nat>, q: Graph, unitGroups: seq<seq<nat>>, groups: seq<seq<nat>>)
    requires Owns(units, owner) && IsQuotient(g, owner, q) && |q| == |units|
    requires ExpandsAll(units, unitGroups, groups) && AcyclicQuotient(q, unitGroups)
    requires forall i :: 0 <= i < |units| ==> |units[i]| == 1 || exists ug :: ug in unitGroups && i in ug
    ensures AcyclicQuotient(g, groups)
  {
    var r :| QuotientRank(q, unitGroups, r);
    var rank: seq<nat> := seq(|g|, v requires 0 <= v < |g| => r[owner[v]]);
    forall c, u | c in groups && u in c ensures u < |g| {
      var k :| 0 <= k < |groups| && groups[k] == c;
      assert ExpandsTo(units, unitGroups[k], groups[k]);
    }
    forall c, u, v | c in groups && u in c && v in c ensures rank[u] == rank[v] {
      assert Together(groups, u, v);
      ExpandedTogether(units, owner, unitGroups, groups, u, v);
    }
    forall u: nat, v: nat | Edge(g, u, v) ensures Together(groups, u, v) || rank[u] < rank[v] {
      ExpandedTogether(units, owner, unitGroups, groups, u, v);
      if owner[u] == owner[v] {
        var unit := units[owner[u]];
        assert u in unit && v in unit;
        if |unit| == 1 { assert u == unit[0] && v == unit[0]; }
      } else {
        assert Edge(q, owner[u], owner[v]);
      }
    }
    assert QuotientRank(g, groups, rank);
  }

  /** Units of one colour each, coloured by their nodes. */
  ghost predicate ColoursUnits(c: Colouring, units: seq<seq<nat>>, cu: Colouring) {
    && cu.Valid(|units|)
    && |c.supported| == |c.float64| == |c.classes|
    && forall i, v {:trigger v in units[i]} :: 0 <= i < |units| && v in units[i] ==>
         && v < |c.supported|
         && cu.supported[i] == c.supported[v]
         && cu.float64[i] == c.float64[v]
         && cu.classes[i] == c.classes[v]
  }

  /** A valid partition of the units is, node by node, a valid partition of the graph. */
  lemma ExpansionIsPartition(
    g: Graph, c: Colouring, units: seq<seq<nat>>, owner: seq<nat>, q: Graph, cu: Colouring,
    unitGroups: seq<seq<nat>>, groups: seq<seq<nat>>)
    requires c.Valid(|g|) && Owns(units, owner) && IsQuotient(g, owner, q) && |q| == |units|
    requires forall i :: 0 <= i < |units| ==> units[i] != [] && (cu.Valid(|units|) && !cu.supported[i] ==> |units[i]| == 1)
    requires ColoursUnits(c, units, cu) && ValidPartition(q, cu, unitGroups)
    requires ExpandsAll(units, unitGroups, groups)
    ensures ValidPartition(g, c, groups)
  {
    forall i: nat ensures i in cu.SupportedNodes() <==> exists ug :: ug in unitGroups && i in ug {
      OccurrenceHasGroup(unitGroups, i);
      assert i in multiset(cu.SupportedNodes()) <==> i in cu.SupportedNodes();
    }
    ExpansionKeepsQuotientAcyclic(g, units, owner, q, unitGroups, groups);
    forall k | 0 <= k < |groups| ensures groups[k] != [] && NoDup(groups[k]) && c.OneColour(groups[k]) {
      assert unitGroups[k] in unitGroups && ExpandsTo(units, unitGroups[k], groups[k]);
      ExpandedColour(c, units, cu, unitGroups[k], groups[k]);
    }
    ExpansionCovers(c, units, owner, cu, unitGroups, groups);
  }

  lemma ExpansionCovers(
    c: Colouring, units: seq<seq<nat>>, owner: seq<nat>, cu: Colouring,
    unitGroups: seq<seq<nat>>, groups: seq<seq<nat>>)
    requires c.Valid(|owner|) && Owns(units, owner) && ColoursUnits(c, units, cu)
    requires ExactCover(unitGroups, cu.SupportedNodes()) && ExpandsAll(units, unitGroups, groups)
    ensures ExactCover(groups, c.SupportedNodes())
  {
    forall k, v: nat | 0 <= k < |groups| ensures v in groups[k] <==> v < |owner| && owner[v] in unitGroups[k] {
      assert ExpandsTo(units, unitGroups[k], groups[k]);
      if v in groups[k] { var i :| i in unitGroups[k] && i < |units| && v in units[i]; }
      if v < |owner| { assert v in units[owner[v]]; }
    }
    forall i, j, x | 0 <= i < j < |groups| && x in groups[i] ensures x !in groups[j] {
      assert multiset(cu.SupportedNodes())[owner[x]] <= 1;
      if owner[x] in unitGroups[j] { NodeHasOneGroup(unitGroups, i, j, owner[x]); }
    }
    forall group | group in groups ensures NoDup(group) {
      var k :| 0 <= k < |groups| && groups[k] == group;
      assert ExpandsTo(units, unitGroups[k], groups[k]);
    }
    forall v: nat ensures v in c.SupportedNodes() <==> exists group :: group in groups && v in group {
      if v < |owner| {
        assert v in units[owner[v]];
        OccurrenceHasGroup(unitGroups, owner[v]);
        assert owner[v] in multiset(cu.SupportedNodes()) <==> c.supported[v];
        if c.supported[v] {
          var ug :| ug in unitGroups && owner[v] in ug;
          var k :| 0 <= k < |unitGroups| && unitGroups[k] == ug;
          assert groups[k] in groups && v in groups[k];
        }
        if group :| group in groups && v in group {
          var k :| 0 <= k < |groups| && groups[k] == group;
          assert unitGroups[k] in unitGroups;
        }
      }
    }
    DisjointGroupsCover(groups, c.SupportedNodes());
  }

  lemma ExpandedColour(
    c: Colouring, units: seq<seq<nat>>, cu: Colouring, unitGroup: seq<nat>, group: seq<nat>)
    requires ColoursUnits(c, units, cu) && ExpandsTo(units, unitGroup, group)
    requires unitGroup != [] && cu.OneColour(unitGroup)
    requires forall i :: 0 <= i < |units| ==> units[i] != []
    ensures group != [] && c.OneColour(group)
  {
    var i := unitGroup[0];
    assert i in unitGroup && units[i][0] in units[i];
    assert units[i][0] in group;
    assert group[0] in group;
    forall v | v in group ensures group[0] < |c.supported| && v < |c.supported| && c.Compatible(group[0], v) {
      var a :| a in unitGroup && group[0] in units[a];
      var b :| b in unitGroup && v in units[b];
      assert cu.Compatible(i, a) && cu.Compatible(i, b);
    }
  }

  // ---- Flattening -------------------------------------------------------------------------------

  function Flattened(units: seq<seq<nat>>, unitGroup: seq<nat>): (r: seq<nat>)
    requires Below(unitGroup, |units|)
    ensures forall v :: v in r <==> exists i :: i in unitGroup && v in units[i]
  {
    if unitGroup == [] then []
    else
      var front, last := unitGroup[..|unitGroup| - 1], unitGroup[|unitGroup| - 1];
      assert unitGroup == front + [last];
      Flattened(units, front) + units[last]
  }

  lemma {:induction false} FlattenedNoDup(units: seq<seq<nat>>, owner: seq<nat>, unitGroup: seq<nat>)
    requires Owns(units, owner) && NoDup(unitGroup) && Below(unitGroup, |units|)
    requires forall i :: 0 <= i < |units| ==> NoDup(units[i])
    ensures NoDup(Flattened(units, unitGroup))
  {
    if unitGroup != [] {
      var front, last := unitGroup[..|unitGroup| - 1], unitGroup[|unitGroup| - 1];
      FlattenedNoDup(units, owner, front);
      var a, b := Flattened(units, front), units[last];
      forall v | v in a ensures v !in b {
        var i :| i in front && v in units[i];
        assert owner[v] == i && i != last;
      }
      forall i, j | 0 <= i < j < |a + b| ensures (a + b)[i] != (a + b)[j] {
        if i < |a| <= j { assert (a + b)[i] in a && (a + b)[j] in b; }
      }
    }
  }

  /** The nodes of a group of units, sorted by index. */
  function Expanded(units: seq<seq<nat>>, unitGroup: seq<nat>): (r: seq<nat>)
    requires Below(unitGroup, |units|)
    ensures Ascending(r)
  {
    SortNodes(Flattened(units, unitGroup))
  }

  lemma ExpandedExpands(units: seq<seq<nat>>, owner: seq<nat>, unitGroup: seq<nat>)
    requires Owns(units, owner) && NoDup(unitGroup) && Below(unitGroup, |units|)
    requires forall i :: 0 <= i < |units| ==> NoDup(units[i])
    ensures ExpandsTo(units, unitGroup, Expanded(units, unitGroup))
    ensures StrictlyAscending(Expanded(units, unitGroup))
  {
    FlattenedNoDup(units, owner, unitGroup);
    SortKeepsNoDup(Flattened(units, unitGroup));
  }
}
