/** Sorting: nodes of a group, groups by their first node, and row numbers without repetitions. */
module Sorting {
  import opened Graphs

  ghost predicate Ascending(s: seq<nat>) {
    forall i, j :: 0 <= i < j < |s| ==> s[i] <= s[j]
  }

  ghost predicate StrictlyAscending(s: seq<nat>) {
    forall i, j :: 0 <= i < j < |s| ==> s[i] < s[j]
  }

  function InsertNode(v: nat, s: seq<nat>): (r: seq<nat>)
    requires Ascending(s)
    ensures Ascending(r) && |r| == |s| + 1
    ensures forall w :: w in r <==> w == v || w in s
  {
    if s == [] || v <= s[0] then [v] + s
    else
      assert s == [s[0]] + s[1..];
      var tail := InsertNode(v, s[1..]);
      assert forall i :: 0 <= i < |tail| ==> tail[i] in tail;
      [s[0]] + tail
  }

  lemma {:induction false} InsertCounts(v: nat, s: seq<nat>)
    requires Ascending(s)
    ensures multiset(InsertNode(v, s)) == multiset(s) + multiset{v}
  {
    if s != [] && v > s[0] {
      assert s == [s[0]] + s[1..];
      InsertCounts(v, s[1..]);
    }
  }

  function SortNodes(s: seq<nat>): (r: seq<nat>)
    ensures Ascending(r) && |r| == |s|
    ensures forall w :: w in r <==> w in s
  {
    if s == [] then []
    else
      assert s == [s[0]] + s[1..];
      InsertNode(s[0], SortNodes(s[1..]))
  }

  lemma {:induction false} SortCounts(s: seq<nat>)
    ensures multiset(SortNodes(s)) == multiset(s)
  {
    if s != [] {
      assert s == [s[0]] + s[1..];
      SortCounts(s[1..]);
      InsertCounts(s[0], SortNodes(s[1..]));
    }
  }

  lemma {:induction false} CountsMakeNoDup(s: seq<nat>)
    requires forall v :: multiset(s)[v] <= 1
    ensures NoDup(s)
  {
    if s != [] {
      var front, last := s[..|s| - 1], s[|s| - 1];
      assert s == front + [last];
      forall v ensures multiset(front)[v] <= 1 { assert multiset(s)[v] <= 1; }
      CountsMakeNoDup(front);
      assert multiset(s)[last] <= 1;
      assert last !in multiset(front);
    }
  }

  lemma SortKeepsNoDup(s: seq<nat>)
    requires NoDup(s)
    ensures StrictlyAscending(SortNodes(s))
  {
    SortCounts(s);
    forall v ensures multiset(SortNodes(s))[v] <= 1 { NoDupCount(s, v); }
    CountsMakeNoDup(SortNodes(s));
  }

  function Head(c: seq<nat>): (n: nat) {
    if c == [] then 0 else c[0]
  }

  ghost predicate HeadsAscending(groups: seq<seq<nat>>) {
    forall i, j :: 0 <= i < j < |groups| ==> Head(groups[i]) <= Head(groups[j])
  }

  function InsertByHead(c: seq<nat>, groups: seq<seq<nat>>): (r: seq<seq<nat>>)
    requires HeadsAscending(groups)
    ensures HeadsAscending(r) && |r| == |groups| + 1
    ensures forall d :: d in r <==> d == c || d in groups
  {
    if groups == [] || Head(c) <= Head(groups[0]) then [c] + groups
    else
      assert groups == [groups[0]] + groups[1..];
      var tail := InsertByHead(c, groups[1..]);
      assert forall i :: 0 <= i < |tail| ==> tail[i] in tail;
      [groups[0]] + tail
  }

  lemma SingleOccurrence(c: seq<nat>)
    ensures Occurrences([c]) == multiset(c)
  {
    var one: seq<seq<nat>> := [c];
    assert one[..0] == [] && one[0] == c;
  }

  lemma {:induction false} InsertOccurrences(c: seq<nat>, groups: seq<seq<nat>>)
    requires HeadsAscending(groups)
    ensures Occurrences(InsertByHead(c, groups)) == multiset(c) + Occurrences(groups)
  {
    if groups == [] || Head(c) <= Head(groups[0]) {
      OccurrencesAppend([c], groups);
      SingleOccurrence(c);
    } else {
      InsertOccurrences(c, groups[1..]);
      OccurrencesAppend([groups[0]], groups[1..]);
      assert groups == [groups[0]] + groups[1..];
      OccurrencesAppend([groups[0]], InsertByHead(c, groups[1..]));
    }
  }

  function SortByHead(groups: seq<seq<nat>>): (r: seq<seq<nat>>)
    ensures HeadsAscending(r) && |r| == |groups|
    ensures forall d :: d in r <==> d in groups
  {
    if groups == [] then []
    else
      assert groups == [groups[0]] + groups[1..];
      InsertByHead(groups[0], SortByHead(groups[1..]))
  }

  lemma {:induction false} SortOccurrences(groups: seq<seq<nat>>)
    ensures Occurrences(SortByHead(groups)) == Occurrences(groups)
  {
    if groups != [] {
      SortOccurrences(groups[1..]);
      InsertOccurrences(groups[0], SortByHead(groups[1..]));
      OccurrencesAppend([groups[0]], groups[1..]);
      assert groups == [groups[0]] + groups[1..];
      SingleOccurrence(groups[0]);
    }
  }

  // ---- Sorted without repetitions ---------------------------------------------------------------

  /** Sorted, each number once. */
  function SortDedup(s: seq<nat>): (r: seq<nat>)
    ensures StrictlyAscending(r) && forall v :: v in r <==> v in s
  {
    Dedup(SortNodes(s))
  }

  function Dedup(s: seq<nat>): (r: seq<nat>)
    requires Ascending(s)
    ensures StrictlyAscending(r) && forall v :: v in r <==> v in s
  {
    if |s| == 0 then []
    else
      assert s == [s[0]] + s[1..];
      var tail := Dedup(s[1..]);
      if tail != [] && tail[0] == s[0] then tail
      else
        PrependSmaller(s, tail);
        [s[0]] + tail
  }

  lemma PrependSmaller(s: seq<nat>, tail: seq<nat>)
    requires s != [] && Ascending(s) && StrictlyAscending(tail)
    requires forall v :: v in tail <==> v in s[1..]
    requires tail != [] ==> tail[0] != s[0]
    ensures StrictlyAscending([s[0]] + tail)
  {
    forall i | 0 <= i < |tail| ensures s[0] < tail[i] {
      assert tail[i] in s[1..] && tail[0] in s[1..];
    }
  }
}
