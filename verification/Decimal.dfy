/** Decimal rendering of integers and integer lists, and why it can be read back. */
module Decimal {
  predicate IsDigit(c: char) { '0' <= c <= '9' }

  function Digit(d: nat): (c: char)
    requires d < 10
    ensures IsDigit(c) && c as int == '0' as int + d
  {
    ('0' as int + d) as char
  }

  function Natural(n: nat): (s: string)
    ensures s != [] && forall i {:trigger s[i]} :: 0 <= i < |s| ==> IsDigit(s[i])
  {
    if n < 10 then [Digit(n)] else Natural(n / 10) + [Digit(n % 10)]
  }

  function Integer(i: int): (text: string) {
    if i < 0 then "-" + Natural(-i) else Natural(i)
  }

  function Items(xs: seq<int>): (text: string) {
    if xs == [] then ""
    else if |xs| == 1 then Integer(xs[0])
    else Integer(xs[0]) + ", " + Items(xs[1..])
  }

  /** A list in brackets, its items separated by a comma and a space. */
  function List(xs: seq<int>): (text: string) {
    "[" + Items(xs) + "]"
  }

  /** What follows a number: nothing, or something that is not a digit. */
  predicate Ends(rest: string) {
    rest == [] || !IsDigit(rest[0])
  }

  lemma {:induction false} SameDigits(n: nat, m: nat)
    requires Natural(n) == Natural(m)
    ensures n == m
  {
    if n < 10 || m < 10 {
      NaturalLength(n);
      NaturalLength(m);
      assert n < 10 && m < 10;
      assert Natural(n)[0] == Natural(m)[0];
    } else {
      var a, b := Natural(n / 10), Natural(m / 10);
      assert (a + [Digit(n % 10)])[..|a|] == a && (b + [Digit(m % 10)])[..|b|] == b;
      assert Natural(n)[|a|] == Natural(m)[|b|];
      SameDigits(n / 10, m / 10);
    }
  }

  lemma {:induction false} NaturalLength(n: nat)
    ensures |Natural(n)| == 1 <==> n < 10
  {
  }

  ghost predicate Digits(a: string) {
    forall i {:trigger a[i]} :: 0 <= i < |a| ==> IsDigit(a[i])
  }

  lemma {:induction false} NotShorter(a: string, u: string, b: string, v: string)
    requires a + u == b + v && Digits(b) && Ends(u)
    ensures |a| >= |b|
  {
    if |a| < |b| {
      SameAt(a, u, b, v, |a|);
    }
  }

  lemma {:induction false} IndexLeft(a: string, u: string, i: nat)
    requires i < |a|
    ensures (a + u)[i] == a[i]
  {
  }

  lemma {:induction false} SameAt(a: string, u: string, b: string, v: string, i: nat)
    requires a + u == b + v && |a| <= i < |b| && i < |a| + |u|
    ensures u[i - |a|] == b[i]
  {
    assert (a + u)[i] == u[i - |a|];
  }

  /** A number can be told from what follows it. */
  lemma {:induction false} NaturalPrefix(n: nat, u: string, m: nat, v: string)
    requires Natural(n) + u == Natural(m) + v && Ends(u) && Ends(v)
    ensures n == m && u == v
  {
    NotShorter(Natural(n), u, Natural(m), v);
    NotShorter(Natural(m), v, Natural(n), u);
    SamePrefix(Natural(n), u, Natural(m), v);
    SameDigits(n, m);
  }

  lemma {:induction false} SamePrefix(a: string, u: string, b: string, v: string)
    requires a + u == b + v && |a| == |b|
    ensures a == b && u == v
  {
    assert a == (a + u)[..|a|] && b == (b + v)[..|b|];
    assert u == (a + u)[|a|..] && v == (b + v)[|b|..];
  }

  lemma {:induction false} Regroup(a: string, b: string, c: string)
    ensures a + b + c == a + (b + c)
  {
  }

  lemma {:induction false} IntegerPrefix(i: int, u: string, j: int, v: string)
    requires Integer(i) + u == Integer(j) + v && Ends(u) && Ends(v)
    ensures i == j && u == v
  {
    IndexLeft(Integer(i), u, 0);
    IndexLeft(Integer(j), v, 0);
    assert (i < 0) == (Integer(i)[0] == '-') && (j < 0) == (Integer(j)[0] == '-');
    if i < 0 {
      Regroup("-", Natural(-i), u);
      Regroup("-", Natural(-j), v);
      SamePrefix("-", Natural(-i) + u, "-", Natural(-j) + v);
      NaturalPrefix(-i, u, -j, v);
    } else {
      NaturalPrefix(i, u, j, v);
    }
  }

  lemma {:induction false} ItemsStart(xs: seq<int>, u: string)
    ensures Items(xs) + "]" + u != []
    ensures (Items(xs) + "]" + u)[0] == ']' <==> xs == []
  {
    if xs != [] {
      IndexLeft(Items(xs), "]" + u, 0);
      Regroup(Items(xs), "]", u);
      assert Items(xs)[0] == Integer(xs[0])[0];
    }
  }

  lemma {:induction false} ItemsPrefix(xs: seq<int>, u: string, ys: seq<int>, v: string)
    requires Items(xs) + "]" + u == Items(ys) + "]" + v
    ensures xs == ys && u == v
  {
    ItemsStart(xs, u);
    ItemsStart(ys, v);
    if xs == [] {
      Regroup("", "]", u);
      Regroup("", "]", v);
      assert "" + ("]" + u) == "]" + u && "" + ("]" + v) == "]" + v;
      SamePrefix("]", u, "]", v);
    } else {
      FirstItem(xs, u);
      FirstItem(ys, v);
      IntegerPrefix(xs[0], AfterFirst(xs, u), ys[0], AfterFirst(ys, v));
      if |xs| > 1 {
        SamePrefix(", ", Items(xs[1..]) + "]" + u, ", ", Items(ys[1..]) + "]" + v);
        ItemsPrefix(xs[1..], u, ys[1..], v);
      } else {
        SamePrefix("]", u, "]", v);
      }
    }
  }

  /** What follows the first item of a list, up to and after its bracket. */
  function AfterFirst(xs: seq<int>, u: string): (rest: string)
    requires xs != []
    ensures rest != [] && rest[0] == (if |xs| == 1 then ']' else ',')
  {
    if |xs| == 1 then "]" + u else ", " + (Items(xs[1..]) + "]" + u)
  }

  lemma {:induction false} FirstItem(xs: seq<int>, u: string)
    requires xs != []
    ensures Items(xs) + "]" + u == Integer(xs[0]) + AfterFirst(xs, u)
  {
    if |xs| == 1 {
      Regroup(Integer(xs[0]), "]", u);
    } else {
      var more := Items(xs[1..]);
      Regroup(Integer(xs[0]) + ", ", more, "]");
      Regroup(Integer(xs[0]) + ", ", more + "]", u);
      Regroup(Integer(xs[0]), ", ", more + "]" + u);
    }
  }

  /** A list can be told from what follows it. */
  lemma {:induction false} ListPrefix(xs: seq<int>, u: string, ys: seq<int>, v: string)
    requires List(xs) + u == List(ys) + v
    ensures xs == ys && u == v
  {
    Regroup("[", Items(xs) + "]", u);
    Regroup("[", Items(ys) + "]", v);
    Regroup("[", Items(xs), "]");
    Regroup("[", Items(ys), "]");
    SamePrefix("[", Items(xs) + "]" + u, "[", Items(ys) + "]" + v);
    ItemsPrefix(xs, u, ys, v);
  }
}
