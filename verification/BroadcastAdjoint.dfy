/**
 SumToShape: reduce a gradient to the shape that was broadcast. Tensors of any rank are row-major
 data with a shape; real arithmetic stands for the floating-point sums.
 */
module BroadcastAdjoint {
  import opened Wrappers

  datatype Tensor = Tensor(shape: seq<nat>, data: seq<real>) {
    predicate Valid() { |data| == Size(shape) }
  }

  datatype Error = BadDimension | RankExceeds | IncompatibleExtents

  const INT32_MAX := 0x7fff_ffff

  function Size(shape: seq<nat>): (n: nat) {
    if shape == [] then 1 else Extent(shape[0], Size(shape[1..]))
  }

  /** `n` times `size`, by repeated addition: the element count of `n` rows. */
  function Extent(n: nat, size: nat): (r: nat) {
    if n == 0 then 0 else Extent(n - 1, size) + size
  }

  lemma {:induction false} ExtentIsProduct(n: nat, size: nat)
    ensures Extent(n, size) == n * size
  {
    if n > 0 { ExtentIsProduct(n - 1, size); }
  }

  function Zeros(n: nat): (z: seq<real>)
    ensures |z| == n && forall i :: 0 <= i < n ==> z[i] == 0.0
  {
    seq(n, _ => 0.0)
  }

  function Ones(n: nat): (z: seq<nat>)
    ensures |z| == n && forall i :: 0 <= i < n ==> z[i] == 1
  {
    seq(n, _ => 1)
  }

  function Add(a: seq<real>, b: seq<real>): (r: seq<real>)
    requires |a| == |b|
    ensures |r| == |a|
  {
    seq(|a|, i requires 0 <= i < |a| => a[i] + b[i])
  }

  function Inner(a: seq<real>, b: seq<real>): (x: real)
    requires |a| == |b|
  {
    if a == [] then 0.0 else Inner(a[..|a| - 1], b[..|b| - 1]) + a[|a| - 1] * b[|b| - 1]
  }

  function Total(a: seq<real>): (x: real) {
    if a == [] then 0.0 else Total(a[..|a| - 1]) + a[|a| - 1]
  }

  /** Row `i` of data whose rows have `size` elements. */
  function Row(data: seq<real>, i: nat, size: nat): (row: seq<real>)
    requires Extent(i + 1, size) <= |data|
    ensures |row| == size
  {
    data[Extent(i, size)..Extent(i, size) + size]
  }

  lemma {:induction false} RowFits(i: nat, n: nat, size: nat)
    requires i < n
    ensures Extent(i + 1, size) <= Extent(n, size)
  {
    if i + 1 < n { RowFits(i, n - 1, size); }
  }

  lemma {:induction false} MoreRows(m: nat, n: nat, size: nat)
    requires m <= n
    ensures Extent(m, size) <= Extent(n, size)
  {
    if m > 0 { RowFits(m - 1, n, size); }
  }

  lemma {:induction false} OneRow(size: nat)
    ensures Extent(1, size) == size
  {
    assert Extent(0, size) == 0;
  }

  // ---- The reduction ----------------------------------------------------------------------------

  /** The shape after summing some axes and keeping them with extent one. */
  function Kept(shape: seq<nat>, axis: nat, axes: seq<nat>): (kept: seq<nat>)
    ensures |kept| == |shape|
  {
    if shape == [] then []
    else [if axis in axes then 1 else shape[0]] + Kept(shape[1..], axis + 1, axes)
  }

  /** Sum over the listed axes of a tensor whose first axis is number `axis`. */
  function SumAxes(shape: seq<nat>, axis: nat, axes: seq<nat>, data: seq<real>): (r: seq<real>)
    requires |data| == Size(shape)
    ensures |r| == Size(Kept(shape, axis, axes))
    decreases |shape|, 0
  {
    if shape == [] then data
    else if axis in axes then
      OneRow(Size(Kept(shape[1..], axis + 1, axes)));
      AddRows(shape[0], shape[1..], axis + 1, axes, data)
    else JoinRows(shape[0], shape[1..], axis + 1, axes, data)
  }

  function AddRows(n: nat, rest: seq<nat>, axis: nat, axes: seq<nat>, data: seq<real>): (r: seq<real>)
    requires Extent(n, Size(rest)) <= |data|
    ensures |r| == Size(Kept(rest, axis, axes))
    decreases |rest|, 1, n
  {
    if n == 0 then Zeros(Size(Kept(rest, axis, axes)))
    else
      RowFits(n - 1, n, Size(rest));
      Add(AddRows(n - 1, rest, axis, axes, data), SumAxes(rest, axis, axes, Row(data, n - 1, Size(rest))))
  }

  function JoinRows(n: nat, rest: seq<nat>, axis: nat, axes: seq<nat>, data: seq<real>): (r: seq<real>)
    requires Extent(n, Size(rest)) <= |data|
    ensures |r| == Extent(n, Size(Kept(rest, axis, axes)))
    decreases |rest|, 1, n
  {
    if n == 0 then []
    else
      RowFits(n - 1, n, Size(rest));
      JoinRows(n - 1, rest, axis, axes, data) + SumAxes(rest, axis, axes, Row(data, n - 1, Size(rest)))
  }

  predicate Compatible(target: seq<int>, source: seq<nat>)
    requires |target| <= |source|
  {
    forall i {:trigger target[i]} :: 0 <= i < |target| ==> target[i] == 1 || target[i] == source[|source| - |target| + i]
  }

  /** The axes to sum: the leading ones and those the target has with extent one. */
  function ReducedAxes(target: seq<nat>, rank: nat): (axes: seq<nat>)
    requires |target| <= rank
    ensures forall i: nat :: i in axes <==> i < rank && (i < rank - |target| || target[i - (rank - |target|)] == 1)
  {
    AxesFrom(target, rank, 0)
  }

  function AxesFrom(target: seq<nat>, rank: nat, from: nat): (axes: seq<nat>)
    requires |target| <= rank && from <= rank
    ensures forall i: nat ::
              i in axes <==> from <= i < rank && (i < rank - |target| || target[i - (rank - |target|)] == 1)
    decreases rank - from
  {
    if from == rank then []
    else
      var more := AxesFrom(target, rank, from + 1);
      if from < rank - |target| || target[from - (rank - |target|)] == 1 then [from] + more else more
  }

  predicate Dimensions(target: seq<int>) {
    forall i {:trigger target[i]} :: 0 <= i < |target| ==> 0 <= target[i] <= INT32_MAX
  }

  /** The target aligned with the trailing source axes: ones in front. */
  function Padded(target: seq<nat>, rank: nat): (padded: seq<nat>)
    requires |target| <= rank
    ensures |padded| == rank
  {
    Ones(rank - |target|) + target
  }

  lemma {:induction false} PaddedSize(k: nat, target: seq<nat>)
    ensures Size(Ones(k) + target) == Size(target)
  {
    if k == 0 {
      assert Ones(0) + target == target;
    } else {
      assert (Ones(k) + target)[1..] == Ones(k - 1) + target;
      PaddedSize(k - 1, target);
      OneRow(Size(target));
    }
  }

  /** Every axis of `t` has extent one exactly when it is listed, and else the extent of `s`. */
  ghost predicate Aligned(t: seq<nat>, s: seq<nat>, axis: nat, axes: seq<nat>) {
    |t| == |s| && forall i {:trigger t[i]} :: 0 <= i < |s| ==>
      if axis + i in axes then t[i] == 1 else t[i] == s[i] && t[i] != 1
  }

  lemma {:induction false} AlignedTail(t: seq<nat>, s: seq<nat>, axis: nat, axes: seq<nat>)
    requires Aligned(t, s, axis, axes) && s != []
    ensures Aligned(t[1..], s[1..], axis + 1, axes)
  {
    forall i | 0 <= i < |s| - 1
      ensures if axis + 1 + i in axes then t[1..][i] == 1 else t[1..][i] == s[1..][i] && t[1..][i] != 1
    {
      assert t[i + 1] == t[1..][i] && axis + (i + 1) == axis + 1 + i;
    }
  }

  lemma {:induction false} KeptIsAligned(t: seq<nat>, s: seq<nat>, axis: nat, axes: seq<nat>)
    requires Aligned(t, s, axis, axes)
    ensures Kept(s, axis, axes) == t
  {
    if s != [] {
      AlignedTail(t, s, axis, axes);
      KeptIsAligned(t[1..], s[1..], axis + 1, axes);
      assert axis + 0 in axes <==> axis in axes;
      assert t == [t[0]] + t[1..];
    }
  }

  lemma {:induction false} ReducedIsAligned(target: seq<nat>, source: seq<nat>)
    requires |target| <= |source| && Compatible(target, source)
    ensures Aligned(Padded(target, |source|), source, 0, ReducedAxes(target, |source|))
  {
    var leading, axes, padded := |source| - |target|, ReducedAxes(target, |source|), Padded(target, |source|);
    forall i | 0 <= i < |source|
      ensures if 0 + i in axes then padded[i] == 1 else padded[i] == source[i] && padded[i] != 1
    {
      if i >= leading { assert padded[i] == target[i - leading]; }
    }
  }

  function SumToShape(gradient: Tensor, target: seq<int>): (r: Result<Tensor, Error>)
    requires gradient.Valid()
    ensures r.Ok? ==> r.value.Valid() && r.value.shape == target
  {
    var source := gradient.shape;
    if !Dimensions(target) then Err(BadDimension)
    else if |source| < |target| then Err(RankExceeds)
    else if !Compatible(target, source) then Err(IncompatibleExtents)
    else
      var dims := AsNats(target);
      Ok(Tensor(dims, Reduced(gradient, dims)))
  }

  function AsNats(target: seq<int>): (dims: seq<nat>)
    requires Dimensions(target)
    ensures dims == target
  {
    seq(|target|, i requires 0 <= i < |target| => target[i])
  }

  function Reduced(gradient: Tensor, target: seq<nat>): (r: seq<real>)
    requires gradient.Valid() && |target| <= |gradient.shape| && Compatible(target, gradient.shape)
    ensures |r| == Size(target)
  {
    if 0 in gradient.shape then Zeros(Size(target))
    else
      var axes := ReducedAxes(target, |gradient.shape|);
      ReducedIsAligned(target, gradient.shape);
      KeptIsAligned(Padded(target, |gradient.shape|), gradient.shape, 0, axes);
      PaddedSize(|gradient.shape| - |target|, target);
      if axes == [] then
        NoAxes(gradient.shape, 0, axes);
        gradient.data
      else SumAxes(gradient.shape, 0, axes, gradient.data)
  }

  lemma {:induction false} NoAxes(shape: seq<nat>, axis: nat, axes: seq<nat>)
    requires axes == []
    ensures Kept(shape, axis, axes) == shape
  {
    if shape != [] { NoAxes(shape[1..], axis + 1, axes); }
  }

  // ---- Broadcasting -----------------------------------------------------------------------------

  /** Where position `p` of the broadcast result comes from: axes of extent one always read index 0. */
  function Origin(t: seq<nat>, s: seq<nat>, p: nat): (o: nat)
    requires Broadcasts(t, s) && p < Size(s)
    ensures o < Size(t)
  {
    if s == [] then 0
    else
      var inner := Size(s[1..]);
      BroadcastsTail(t, s);
      QuotientBelow(p, s[0], inner);
      var i, q := p / inner, p % inner;
      var r := if t[0] == 1 then 0 else i;
      RowFits(r, t[0], Size(t[1..]));
      Extent(r, Size(t[1..])) + Origin(t[1..], s[1..], q)
  }

  /** ONNX broadcasting of aligned shapes: each extent is one or the result's. */
  ghost predicate Broadcasts(t: seq<nat>, s: seq<nat>) {
    |t| == |s| && forall i {:trigger t[i]} :: 0 <= i < |t| ==> t[i] == 1 || t[i] == s[i]
  }

  lemma {:induction false} BroadcastsTail(t: seq<nat>, s: seq<nat>)
    requires Broadcasts(t, s) && s != []
    ensures Broadcasts(t[1..], s[1..])
  {
    forall i | 0 <= i < |t| - 1 ensures t[1..][i] == 1 || t[1..][i] == s[1..][i] { assert t[i + 1] == t[1..][i]; }
  }

  lemma {:induction false} QuotientBelow(p: nat, n: nat, size: nat)
    requires p < Extent(n, size)
    ensures 0 < size && p / size < n
  {
    ExtentIsProduct(n, size);
    assert size != 0;
    var q := p / size;
    assert q >= n ==> q * size >= n * size;
  }

  function BroadcastTo(t: seq<nat>, s: seq<nat>, x: seq<real>): (r: seq<real>)
    requires Broadcasts(t, s) && |x| == Size(t)
    ensures |r| == Size(s)
  {
    seq(Size(s), p requires 0 <= p < Size(s) => x[Origin(t, s, p)])
  }

  lemma {:induction false} RowMajor(i: nat, q: nat, size: nat)
    requires q < size
    ensures (Extent(i, size) + q) / size == i && (Extent(i, size) + q) % size == q
  {
    ExtentIsProduct(i, size);
    ProductQuotient(i, q, size);
  }

  lemma {:induction false} ProductQuotient(i: nat, q: nat, size: nat)
    requires q < size
    ensures (i * size + q) / size == i && (i * size + q) % size == q
  {
    var p := i * size + q;
    var d := p / size - i;
    assert p == p / size * size + p % size;
    assert d * size == q - p % size;
    assert d >= 1 ==> d * size >= size;
    assert d <= -1 ==> d * size <= -1 * (size as int);
  }

  /** Position `q` of row `i` of a broadcast reads position `Origin(q)` of one row of the source. */
  lemma {:induction false} OriginInRow(t: seq<nat>, s: seq<nat>, i: nat, q: nat)
    requires Broadcasts(t, s) && s != [] && i < s[0] && q < Size(s[1..])
    ensures Broadcasts(t[1..], s[1..]) && Extent(i, Size(s[1..])) + q < Size(s)
    ensures Origin(t, s, Extent(i, Size(s[1..])) + q)
         == Extent(if t[0] == 1 then 0 else i, Size(t[1..])) + Origin(t[1..], s[1..], q)
  {
    BroadcastsTail(t, s);
    RowFits(i, s[0], Size(s[1..]));
    RowMajor(i, q, Size(s[1..]));
  }

  lemma {:induction false} BroadcastInRow(t: seq<nat>, s: seq<nat>, x: seq<real>, i: nat, r: nat, q: nat)
    requires Broadcasts(t, s) && |x| == Size(t) && s != [] && i < s[0] && q < Size(s[1..])
    requires r == (if t[0] == 1 then 0 else i) && Extent(r + 1, Size(t[1..])) <= |x|
    requires Extent(i + 1, Size(s[1..])) <= Size(s)
    ensures Broadcasts(t[1..], s[1..])
    ensures Row(BroadcastTo(t, s, x), i, Size(s[1..]))[q]
         == BroadcastTo(t[1..], s[1..], Row(x, r, Size(t[1..])))[q]
  {
    OriginInRow(t, s, i, q);
    RowAt(BroadcastTo(t, s, x), i, Size(s[1..]), q);
    RowAt(x, r, Size(t[1..]), Origin(t[1..], s[1..], q));
  }

  /** Row `i` of a broadcast is the broadcast of one row of the source. */
  lemma {:induction false} RowOfBroadcast(t: seq<nat>, s: seq<nat>, x: seq<real>, i: nat)
    requires Broadcasts(t, s) && |x| == Size(t) && s != [] && i < s[0]
    ensures Broadcasts(t[1..], s[1..])
    ensures var r, inner := if t[0] == 1 then 0 else i, Size(t[1..]);
            && Extent(r + 1, inner) <= |x| && Extent(i + 1, Size(s[1..])) <= Size(s)
            && Row(BroadcastTo(t, s, x), i, Size(s[1..])) == BroadcastTo(t[1..], s[1..], Row(x, r, inner))
  {
    BroadcastsTail(t, s);
    var r := if t[0] == 1 then 0 else i;
    RowFits(r, t[0], Size(t[1..]));
    RowFits(i, s[0], Size(s[1..]));
    var row, tail := Row(BroadcastTo(t, s, x), i, Size(s[1..])), BroadcastTo(t[1..], s[1..], Row(x, r, Size(t[1..])));
    forall q | 0 <= q < Size(s[1..]) ensures row[q] == tail[q] {
      BroadcastInRow(t, s, x, i, r, q);
    }
    assert row == tail;
  }

  lemma {:induction false} RowAt(data: seq<real>, i: nat, size: nat, q: nat)
    requires Extent(i + 1, size) <= |data| && q < size
    ensures Extent(i, size) + q < |data| && Row(data, i, size)[q] == data[Extent(i, size) + q]
  {
  }

  lemma {:induction false} WholeRow(x: seq<real>)
    ensures Extent(0 + 1, |x|) <= |x| && Row(x, 0, |x|) == x
  {
    OneRow(|x|);
  }

  // ---- Inner products, row by row ---------------------------------------------------------------

  lemma {:induction false} InnerAppend(a: seq<real>, b: seq<real>, c: seq<real>, d: seq<real>)
    requires |a| == |c| && |b| == |d|
    ensures Inner(a + b, c + d) == Inner(a, c) + Inner(b, d)
  {
    if b == [] {
      assert a + b == a && c + d == c;
    } else {
      assert (a + b)[..|a + b| - 1] == a + b[..|b| - 1];
      assert (c + d)[..|c + d| - 1] == c + d[..|d| - 1];
      InnerAppend(a, b[..|b| - 1], c, d[..|d| - 1]);
    }
  }

  lemma {:induction false} InnerAdd(x: seq<real>, u: seq<real>, v: seq<real>)
    requires |x| == |u| == |v|
    ensures Inner(x, Add(u, v)) == Inner(x, u) + Inner(x, v)
  {
    if x != [] {
      var n := |x| - 1;
      InnerAdd(x[..n], u[..n], v[..n]);
      assert Add(u, v)[..n] == Add(u[..n], v[..n]);
    }
  }

  lemma {:induction false} InnerZeros(x: seq<real>)
    ensures Inner(x, Zeros(|x|)) == 0.0
  {
    if x != [] {
      assert Zeros(|x|)[..|x| - 1] == Zeros(|x| - 1);
      InnerZeros(x[..|x| - 1]);
    }
  }

  function InnerRows(n: nat, size: nat, a: seq<real>, b: seq<real>): (x: real)
    requires Extent(n, size) <= |a| && Extent(n, size) <= |b|
  {
    if n == 0 then 0.0
    else
      RowFits(n - 1, n, size);
      InnerRows(n - 1, size, a, b) + Inner(Row(a, n - 1, size), Row(b, n - 1, size))
  }

  lemma {:induction false} InnerByRows(n: nat, size: nat, a: seq<real>, b: seq<real>)
    requires Extent(n, size) <= |a| && Extent(n, size) <= |b|
    ensures Inner(a[..Extent(n, size)], b[..Extent(n, size)]) == InnerRows(n, size, a, b)
  {
    if n > 0 {
      RowFits(n - 1, n, size);
      InnerByRows(n - 1, size, a, b);
      assert a[..Extent(n, size)] == a[..Extent(n - 1, size)] + Row(a, n - 1, size);
      assert b[..Extent(n, size)] == b[..Extent(n - 1, size)] + Row(b, n - 1, size);
      InnerAppend(a[..Extent(n - 1, size)], Row(a, n - 1, size), b[..Extent(n - 1, size)], Row(b, n - 1, size));
    }
  }

  lemma {:induction false} InnerOfRows(n: nat, size: nat, a: seq<real>, b: seq<real>)
    requires |a| == |b| == Extent(n, size)
    ensures Inner(a, b) == InnerRows(n, size, a, b)
  {
    InnerByRows(n, size, a, b);
    assert a[..Extent(n, size)] == a && b[..Extent(n, size)] == b;
  }

  lemma {:induction false} JoinedRow(n: nat, rest: seq<nat>, axis: nat, axes: seq<nat>, data: seq<real>, i: nat)
    requires Extent(n, Size(rest)) <= |data| && i < n
    ensures var size := Size(Kept(rest, axis, axes));
            && Extent(i + 1, size) <= Extent(n, size) && Extent(i + 1, Size(rest)) <= |data|
            && Row(JoinRows(n, rest, axis, axes, data), i, size)
               == SumAxes(rest, axis, axes, Row(data, i, Size(rest)))
  {
    var size := Size(Kept(rest, axis, axes));
    RowFits(i, n, size);
    RowFits(i, n, Size(rest));
    RowFits(n - 1, n, Size(rest));
    RowOfAppend(JoinRows(n - 1, rest, axis, axes, data), SumAxes(rest, axis, axes, Row(data, n - 1, Size(rest))),
                n - 1, size, i);
    if i < n - 1 { JoinedRow(n - 1, rest, axis, axes, data, i); }
  }

  lemma {:induction false} RowOfAppend(before: seq<real>, last: seq<real>, n: nat, size: nat, i: nat)
    requires |before| == Extent(n, size) && |last| == size && i <= n
    ensures Extent(i + 1, size) <= |before + last| && (i < n ==> Extent(i + 1, size) <= |before|)
    ensures Row(before + last, i, size) == if i < n then Row(before, i, size) else last
  {
    RowFits(i, n + 1, size);
    if i < n { RowFits(i, n, size); }
  }

  // ---- The adjoint ------------------------------------------------------------------------------

  /** Summing is adjoint to broadcasting, by induction on the rank. */
  lemma {:induction false} SumAxesIsAdjoint(t: seq<nat>, s: seq<nat>, axis: nat, axes: seq<nat>, x: seq<real>,
                                            g: seq<real>)
    requires Aligned(t, s, axis, axes) && |x| == Size(t) && |g| == Size(s)
    ensures Broadcasts(t, s) && |SumAxes(s, axis, axes, g)| == |x|
    ensures Inner(BroadcastTo(t, s, x), g) == Inner(x, SumAxes(s, axis, axes, g))
    decreases |s|, 2
  {
    KeptIsAligned(t, s, axis, axes);
    if s == [] {
      assert BroadcastTo(t, s, x) == x;
    } else {
      var n, inner := s[0], Size(s[1..]);
      InnerOfRows(n, inner, BroadcastTo(t, s, x), g);
      assert axis + 0 in axes <==> axis in axes;
      if axis in axes {
        AddedRows(t, s, axis, axes, x, g, n);
      } else {
        JoinedRows(t, s, axis, axes, x, g);
        AlignedTail(t, s, axis, axes);
        KeptIsAligned(t[1..], s[1..], axis + 1, axes);
        InnerOfRows(n, Size(t[1..]), x, SumAxes(s, axis, axes, g));
      }
    }
  }

  lemma {:induction false} AddedRows(t: seq<nat>, s: seq<nat>, axis: nat, axes: seq<nat>, x: seq<real>,
                                     g: seq<real>, n: nat)
    requires Aligned(t, s, axis, axes) && |x| == Size(t) && |g| == Size(s)
    requires s != [] && n <= s[0] && axis in axes
    ensures Broadcasts(t, s) && Extent(n, Size(s[1..])) <= |g|
    ensures |AddRows(n, s[1..], axis + 1, axes, g)| == |x|
    ensures InnerRows(n, Size(s[1..]), BroadcastTo(t, s, x), g) == Inner(x, AddRows(n, s[1..], axis + 1, axes, g))
    decreases |s|, 1, n
  {
    MoreRows(n, s[0], Size(s[1..]));
    if n == 0 {
      KeptTail(t, s, axis, axes);
      InnerZeros(x);
    } else {
      RowFits(n - 1, n, Size(s[1..]));
      AddedRows(t, s, axis, axes, x, g, n - 1);
      OneAddedRow(t, s, axis, axes, x, g, n - 1);
      InnerAdd(x, AddRows(n - 1, s[1..], axis + 1, axes, g),
               SumAxes(s[1..], axis + 1, axes, Row(g, n - 1, Size(s[1..]))));
    }
  }

  lemma {:induction false} KeptTail(t: seq<nat>, s: seq<nat>, axis: nat, axes: seq<nat>)
    requires Aligned(t, s, axis, axes) && s != [] && axis in axes
    ensures t[0] == 1 && Size(t) == Size(t[1..]) == Size(Kept(s[1..], axis + 1, axes))
    ensures Aligned(t[1..], s[1..], axis + 1, axes)
  {
    assert axis + 0 in axes <==> axis in axes;
    AlignedTail(t, s, axis, axes);
    KeptIsAligned(t[1..], s[1..], axis + 1, axes);
    OneRow(Size(t[1..]));
  }

  lemma {:induction false} OneAddedRow(t: seq<nat>, s: seq<nat>, axis: nat, axes: seq<nat>, x: seq<real>,
                                       g: seq<real>, i: nat)
    requires Aligned(t, s, axis, axes) && |x| == Size(t) && |g| == Size(s)
    requires s != [] && i < s[0] && axis in axes && Extent(i + 1, Size(s[1..])) <= Size(s)
    ensures Broadcasts(t, s) && |SumAxes(s[1..], axis + 1, axes, Row(g, i, Size(s[1..])))| == |x|
    ensures Inner(Row(BroadcastTo(t, s, x), i, Size(s[1..])), Row(g, i, Size(s[1..])))
         == Inner(x, SumAxes(s[1..], axis + 1, axes, Row(g, i, Size(s[1..]))))
    decreases |s|, 0
  {
    KeptTail(t, s, axis, axes);
    RowOfBroadcast(t, s, x, i);
    WholeRow(x);
    SumAxesIsAdjoint(t[1..], s[1..], axis + 1, axes, x, Row(g, i, Size(s[1..])));
  }

  lemma {:induction false} JoinedRows(t: seq<nat>, s: seq<nat>, axis: nat, axes: seq<nat>, x: seq<real>, g: seq<real>)
    requires Aligned(t, s, axis, axes) && |x| == Size(t) && |g| == Size(s)
    requires s != [] && axis !in axes
    ensures Broadcasts(t, s) && |SumAxes(s, axis, axes, g)| == |x| == Extent(s[0], Size(t[1..]))
    ensures InnerRows(s[0], Size(s[1..]), BroadcastTo(t, s, x), g)
         == InnerRows(s[0], Size(t[1..]), x, SumAxes(s, axis, axes, g))
    decreases |s|, 1
  {
    KeptIsAligned(t, s, axis, axes);
    assert axis + 0 in axes <==> axis in axes;
    var out, wide := SumAxes(s, axis, axes, g), BroadcastTo(t, s, x);
    forall i | 0 <= i < s[0] ensures SameRow(i, Size(s[1..]), wide, g, Size(t[1..]), x, out) {
      OneJoinedRow(t, s, axis, axes, x, g, i);
    }
    SameRows(s[0], Size(s[1..]), wide, g, Size(t[1..]), x, out);
  }

  ghost predicate SameRow(i: nat, p: nat, a: seq<real>, b: seq<real>, q: nat, c: seq<real>, d: seq<real>) {
    && Extent(i + 1, p) <= |a| == |b| && Extent(i + 1, q) <= |c| == |d|
    && Inner(Row(a, i, p), Row(b, i, p)) == Inner(Row(c, i, q), Row(d, i, q))
  }

  lemma {:induction false} SameRows(n: nat, p: nat, a: seq<real>, b: seq<real>, q: nat, c: seq<real>, d: seq<real>)
    requires forall i {:trigger SameRow(i, p, a, b, q, c, d)} :: 0 <= i < n ==> SameRow(i, p, a, b, q, c, d)
    requires Extent(n, p) <= |a| == |b| && Extent(n, q) <= |c| == |d|
    ensures InnerRows(n, p, a, b) == InnerRows(n, q, c, d)
  {
    if n > 0 {
      assert SameRow(n - 1, p, a, b, q, c, d);
      SameRows(n - 1, p, a, b, q, c, d);
    }
  }

  lemma {:induction false} OneJoinedRow(t: seq<nat>, s: seq<nat>, axis: nat, axes: seq<nat>, x: seq<real>,
                                        g: seq<real>, i: nat)
    requires Aligned(t, s, axis, axes) && |x| == Size(t) && |g| == Size(s)
    requires s != [] && i < s[0] && axis !in axes
    ensures Broadcasts(t, s)
    ensures SameRow(i, Size(s[1..]), BroadcastTo(t, s, x), g, Size(t[1..]), x, SumAxes(s, axis, axes, g))
    decreases |s|, 0
  {
    KeptIsAligned(t, s, axis, axes);
    assert axis + 0 in axes <==> axis in axes;
    AlignedTail(t, s, axis, axes);
    KeptIsAligned(t[1..], s[1..], axis + 1, axes);
    RowFits(i, s[0], Size(s[1..]));
    RowFits(i, s[0], Size(t[1..]));
    RowOfBroadcast(t, s, x, i);
    JoinedRow(s[0], s[1..], axis + 1, axes, g, i);
    SumAxesIsAdjoint(t[1..], s[1..], axis + 1, axes, Row(x, i, Size(t[1..])), Row(g, i, Size(s[1..])));
  }

  // ---- The promise ------------------------------------------------------------------------------

  lemma {:induction false} EmptySize(shape: seq<nat>)
    requires 0 in shape
    ensures Size(shape) == 0
  {
    if shape[0] == 0 {
    } else {
      EmptySize(shape[1..]);
      ExtentIsProduct(shape[0], 0);
    }
  }

  lemma {:induction false} TargetBroadcasts(target: seq<nat>, source: seq<nat>)
    requires |target| <= |source| && Compatible(target, source)
    ensures Broadcasts(Padded(target, |source|), source)
  {
    ReducedIsAligned(target, source);
  }

  /** An extent outside 0 to 2147483647, a rank above the gradient's, or an extent that cannot broadcast. */
  ghost predicate BadExtent(target: seq<int>) {
    exists i {:trigger target[i]} :: 0 <= i < |target| && !(0 <= target[i] <= 2147483647)
  }

  ghost predicate Mismatch(target: seq<int>, source: seq<nat>)
    requires |target| <= |source|
  {
    exists i {:trigger target[i]} :: 0 <= i < |target| && target[i] != 1 && target[i] != source[|source| - |target| + i]
  }

  /** A result exists exactly when int32 extents broadcast to the gradient's shape; each error has its one cause. */
  lemma {:induction false} AcceptedTargets(gradient: Tensor, target: seq<int>)
    requires gradient.Valid()
    ensures BadExtent(target) ==> SumToShape(gradient, target) == Err(BadDimension)
    ensures !BadExtent(target) && |target| > |gradient.shape| ==> SumToShape(gradient, target) == Err(RankExceeds)
    ensures !BadExtent(target) && |target| <= |gradient.shape| && Mismatch(target, gradient.shape) ==>
              SumToShape(gradient, target) == Err(IncompatibleExtents)
    ensures !BadExtent(target) && |target| <= |gradient.shape| && !Mismatch(target, gradient.shape) ==>
              SumToShape(gradient, target).Ok?
    ensures SumToShape(gradient, target).Ok? ==>
              && Dimensions(target) && |target| <= |gradient.shape|
              && Broadcasts(Padded(AsNats(target), |gradient.shape|), gradient.shape)
  {
    if SumToShape(gradient, target).Ok? { TargetBroadcasts(AsNats(target), gradient.shape); }
  }

  /**
   SumToShape is the adjoint of broadcasting: for every tensor of the target shape, the inner
   product of its broadcast with the gradient is its inner product with the reduced gradient.
   */
  lemma {:induction false} SumIsAdjointOfBroadcast(gradient: Tensor, target: seq<int>, x: Tensor)
    requires gradient.Valid() && SumToShape(gradient, target).Ok? && x.Valid() && x.shape == target
    ensures var t, s := Padded(x.shape, |gradient.shape|), gradient.shape;
            && Broadcasts(t, s) && Size(t) == |x.data|
            && Inner(BroadcastTo(t, s, x.data), gradient.data)
               == Inner(x.data, SumToShape(gradient, target).value.data)
  {
    var s, axes := gradient.shape, ReducedAxes(x.shape, |gradient.shape|);
    var t := Padded(x.shape, |s|);
    assert AsNats(target) == x.shape;
    ReducedIsAligned(x.shape, s);
    TargetBroadcasts(x.shape, s);
    PaddedSize(|s| - |target|, x.shape);
    if 0 in s {
      EmptySize(s);
      InnerZeros(x.data);
    } else {
      SumAxesIsAdjoint(t, s, 0, axes, x.data, gradient.data);
      if axes == [] { NothingSummed(s, 0, axes, gradient.data); }
    }
  }

  lemma {:induction false} NothingSummed(shape: seq<nat>, axis: nat, axes: seq<nat>, data: seq<real>)
    requires axes == [] && |data| == Size(shape)
    ensures SumAxes(shape, axis, axes, data) == data
    decreases |shape|, 0
  {
    if shape != [] { NothingJoined(shape[0], shape[1..], axis + 1, axes, data); }
  }

  lemma {:induction false} NothingJoined(n: nat, rest: seq<nat>, axis: nat, axes: seq<nat>, data: seq<real>)
    requires axes == [] && Extent(n, Size(rest)) <= |data|
    ensures JoinRows(n, rest, axis, axes, data) == data[..Extent(n, Size(rest))]
    decreases |rest|, 1, n
  {
    if n > 0 {
      RowFits(n - 1, n, Size(rest));
      NothingJoined(n - 1, rest, axis, axes, data);
      NothingSummed(rest, axis, axes, Row(data, n - 1, Size(rest)));
    }
  }

  function Unit(n: nat, o: nat): (u: seq<real>)
    ensures |u| == n
  {
    seq(n, i => if i == o then 1.0 else 0.0)
  }

  /** The sum of the gradient elements whose position was broadcast from position `o`. */
  function FibreSum(t: seq<nat>, s: seq<nat>, g: seq<real>, o: nat, n: nat): (x: real)
    requires Broadcasts(t, s) && |g| == Size(s) && n <= |g|
  {
    if n == 0 then 0.0
    else FibreSum(t, s, g, o, n - 1) + if Origin(t, s, n - 1) == o then g[n - 1] else 0.0
  }

  lemma {:induction false} InnerUnit(x: seq<real>, o: nat)
    ensures Inner(Unit(|x|, o), x) == if o < |x| then x[o] else 0.0
  {
    if x != [] {
      assert Unit(|x|, o)[..|x| - 1] == Unit(|x| - 1, o);
      InnerUnit(x[..|x| - 1], o);
    }
  }

  lemma {:induction false} InnerFibre(t: seq<nat>, s: seq<nat>, g: seq<real>, o: nat, n: nat)
    requires Broadcasts(t, s) && |g| == Size(s) && n <= |g|
    ensures Inner(BroadcastTo(t, s, Unit(Size(t), o))[..n], g[..n]) == FibreSum(t, s, g, o, n)
  {
    if n > 0 {
      var b := BroadcastTo(t, s, Unit(Size(t), o));
      InnerFibre(t, s, g, o, n - 1);
      assert b[..n][..n - 1] == b[..n - 1] && g[..n][..n - 1] == g[..n - 1];
    }
  }

  /** Hence each reduced element is the sum of exactly the gradient elements it was broadcast to. */
  lemma {:induction false} EachElementSumsItsCopies(gradient: Tensor, target: seq<int>, o: nat)
    requires gradient.Valid() && SumToShape(gradient, target).Ok? && o < Size(AsNats(target))
    ensures Broadcasts(Padded(AsNats(target), |gradient.shape|), gradient.shape)
    ensures SumToShape(gradient, target).value.data[o]
         == FibreSum(Padded(AsNats(target), |gradient.shape|), gradient.shape, gradient.data, o, |gradient.data|)
  {
    var dims := AsNats(target);
    var t, s, g, n := Padded(dims, |gradient.shape|), gradient.shape, gradient.data, |gradient.data|;
    PaddedSize(|s| - |dims|, dims);
    var unit := Tensor(dims, Unit(Size(dims), o));
    SumIsAdjointOfBroadcast(gradient, target, unit);
    InnerUnit(SumToShape(gradient, target).value.data, o);
    InnerFlip(unit.data, SumToShape(gradient, target).value.data);
    InnerFibre(t, s, g, o, n);
    var b := BroadcastTo(t, s, unit.data);
    assert b[..n] == b && g[..n] == g;
  }

  lemma {:induction false} InnerFlip(a: seq<real>, b: seq<real>)
    requires |a| == |b|
    ensures Inner(a, b) == Inner(b, a)
  {
    if a != [] { InnerFlip(a[..|a| - 1], b[..|b| - 1]); }
  }

  lemma {:induction false} InnerOnes(x: seq<real>, ones: seq<real>)
    requires |ones| == |x| && forall i {:trigger ones[i]} :: 0 <= i < |x| ==> ones[i] == 1.0
    ensures Inner(ones, x) == Total(x)
  {
    if x != [] { InnerOnes(x[..|x| - 1], ones[..|x| - 1]); }
  }

  /** Nothing is lost: the reduced gradient has the total of the gradient. */
  lemma {:induction false} TotalIsKept(gradient: Tensor, target: seq<int>)
    requires gradient.Valid() && SumToShape(gradient, target).Ok?
    ensures Total(SumToShape(gradient, target).value.data) == Total(gradient.data)
  {
    var dims := AsNats(target);
    var ones := Tensor(dims, seq(Size(dims), _ => 1.0));
    SumIsAdjointOfBroadcast(gradient, target, ones);
    InnerOnes(SumToShape(gradient, target).value.data, ones.data);
    InnerOnes(gradient.data, BroadcastTo(Padded(dims, |gradient.shape|), gradient.shape, ones.data));
  }
}
