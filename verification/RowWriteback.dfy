/**
 In-place cache updates: the byte ranges of the rows an operator wrote, coalesced into canonical
 form, and the packed patches for distinct slots.
 */
module RowWriteback {
  import opened Wrappers
  import opened Sizes
  import opened Graphs
  import opened Sorting

  /** A byte range, end excluded. */
  datatype Span = Span(start: nat, end: nat)

  /** Row `row` of rows of `size` bytes contains byte `b`. */
  predicate InRow(b: nat, row: nat, size: nat) {
    row * size <= b < row * size + size
  }

  /** Byte `b` belongs to one of the rows. */
  ghost predicate Requested(b: nat, rows: seq<nat>, size: nat) {
    exists i {:trigger rows[i]} :: 0 <= i < |rows| && InRow(b, rows[i], size)
  }

  ghost predicate Covered(b: nat, spans: seq<Span>) {
    exists i {:trigger spans[i]} :: 0 <= i < |spans| && spans[i].start <= b < spans[i].end
  }

  /** Nonempty, sorted, disjoint and with a gap between any two. */
  ghost predicate Canonical(spans: seq<Span>) {
    && (forall i {:trigger spans[i]} :: 0 <= i < |spans| ==> spans[i].start < spans[i].end)
    && (forall i, j {:trigger spans[i], spans[j]} :: 0 <= i < j < |spans| ==> spans[i].end < spans[j].start)
  }

  /** Row count and row size of an axis, if the geometry is representable. */
  function Geometry(shape: seq<int>, itemsize: nat, axis: nat): (g: Option<(nat, nat)>) {
    if axis >= |shape| || itemsize == 0 || (exists i :: 0 <= i < |shape| && shape[i] < 0) then None
    else
      var dims: seq<nat> := seq(|shape|, i requires 0 <= i < |shape| => shape[i]);
      match (CheckedProduct(1, dims[..axis + 1]), CheckedProduct(itemsize, dims[axis + 1..]))
      case (Some(count), Some(size)) => if count * size > USIZE_MAX then None else Some((count, size))
      case _ => None
  }

  /**
   A geometry is representable exactly for an axis of the array, elements of some size, no negative
   dimension, and no product of dimensions over 64 bits on the way to the row count, the row size
   and the whole.
   */
  lemma {:induction false} GeometryExists(shape: seq<int>, itemsize: nat, axis: nat)
    ensures Geometry(shape, itemsize, axis).Some? <==>
            && axis < |shape| && itemsize > 0 && (forall i {:trigger shape[i]} :: 0 <= i < |shape| ==> shape[i] >= 0)
            && Representable(shape, itemsize, axis)
  {
    if axis < |shape| && itemsize > 0 && forall i {:trigger shape[i]} :: 0 <= i < |shape| ==> shape[i] >= 0 {
      var dims: seq<nat> := seq(|shape|, i requires 0 <= i < |shape| => shape[i]);
      assert dims == shape;
      CheckedMeans(1, dims[..axis + 1]);
      CheckedMeans(itemsize, dims[axis + 1..]);
      CheckedIsProduct(1, dims[..axis + 1]);
      CheckedIsProduct(itemsize, dims[axis + 1..]);
    }
  }

  ghost predicate Representable(dims: seq<nat>, itemsize: nat, axis: nat)
    requires axis < |dims|
  {
    && (forall j: nat {:trigger PrefixFits(1, dims[..axis + 1], j)} :: j <= axis ==> PrefixFits(1, dims[..axis + 1], j))
    && (forall j: nat {:trigger PrefixFits(itemsize, dims[axis + 1..], j)} :: j < |dims| - axis - 1 ==>
          PrefixFits(itemsize, dims[axis + 1..], j))
    && Product(dims[..axis + 1]) * (Product(dims[axis + 1..]) * itemsize) <= 0xffff_ffff_ffff_ffff
  }

  /** A representable geometry counts the rows up to the axis and the bytes behind it. */
  lemma {:induction false} GeometryCounts(shape: seq<nat>, itemsize: nat, axis: nat)
    requires Geometry(shape, itemsize, axis).Some?
    ensures axis < |shape| && itemsize > 0
    ensures Geometry(shape, itemsize, axis).value == (Product(shape[..axis + 1]), Product(shape[axis + 1..]) * itemsize)
  {
    var dims: seq<nat> := seq(|shape|, i requires 0 <= i < |shape| => shape[i]);
    assert dims == shape;
    CheckedIsProduct(1, shape[..axis + 1]);
    CheckedIsProduct(itemsize, shape[axis + 1..]);
  }

  lemma {:induction false} NextRow(row: nat, next: nat, size: nat)
    requires row < next
    ensures row * size + size <= next * size
    ensures size > 0 && row * size + size == next * size ==> next == row + 1
  {
    assert (row + 1) * size == row * size + size;
    assert next == row + 1 || (row + 2) * size <= next * size;
    assert (row + 2) * size == (row + 1) * size + size;
  }

  /** A byte is requested exactly if its row is. */
  lemma {:induction false} RequestedMeans(b: nat, rows: seq<nat>, size: nat)
    ensures size > 0 ==> (Requested(b, rows, size) <==> b / size in rows)
    ensures size == 0 ==> !Requested(b, rows, size)
  {
    if size > 0 {
      var row := b / size;
      assert b == row * size + b % size;
      if row in rows {
        var i :| 0 <= i < |rows| && rows[i] == row;
        assert InRow(b, rows[i], size);
      }
      if Requested(b, rows, size) {
        var i :| 0 <= i < |rows| && InRow(b, rows[i], size);
        if rows[i] < row { NextRow(rows[i], row, size); }
        if row < rows[i] { NextRow(row, rows[i], size); }
      }
    }
  }

  /** The spans of the first rows, and where the last of them ends. */
  ghost predicate Coalesced(spans: seq<Span>, rows: seq<nat>, n: nat, size: nat) {
    && n <= |rows| && Canonical(spans)
    && (size == 0 ==> spans == [])
    && (forall b: nat {:trigger Covered(b, spans)} :: Covered(b, spans) <==> Requested(b, rows[..n], size))
    && (size > 0 && n > 0 ==> spans != [] && spans[|spans| - 1].end == rows[n - 1] * size + size)
    && (size > 0 && n == 0 ==> spans == [])
  }

  lemma {:induction false} CoveredOneMore(spans: seq<Span>, s: Span, b: nat)
    ensures Covered(b, spans + [s]) <==> Covered(b, spans) || s.start <= b < s.end
  {
    if Covered(b, spans) {
      var i :| 0 <= i < |spans| && spans[i].start <= b < spans[i].end;
      assert (spans + [s])[i] == spans[i];
    }
    if s.start <= b < s.end { assert (spans + [s])[|spans|] == s; }
  }

  lemma {:induction false} RequestedOneMore(rows: seq<nat>, n: nat, size: nat, b: nat)
    requires n < |rows|
    ensures Requested(b, rows[..n + 1], size) <==> Requested(b, rows[..n], size) || InRow(b, rows[n], size)
  {
    if Requested(b, rows[..n], size) {
      var i :| 0 <= i < n && InRow(b, rows[..n][i], size);
      assert rows[..n + 1][i] == rows[..n][i];
    }
    if InRow(b, rows[n], size) { assert rows[..n + 1][n] == rows[n]; }
  }

  /** Take one more row: lengthen the last span or start a new one. */
  method PushRow(spans: seq<Span>, rows: seq<nat>, n: nat, size: nat) returns (more: seq<Span>)
    requires Coalesced(spans, rows, n, size) && n < |rows| && StrictlyAscending(rows)
    ensures Coalesced(more, rows, n + 1, size)
  {
    if size == 0 {
      assert forall b: nat {:trigger Requested(b, rows[..n + 1], size)} :: !Requested(b, rows[..n + 1], size);
      return spans;
    }
    var start, end := rows[n] * size, rows[n] * size + size;
    if n > 0 { NextRow(rows[n - 1], rows[n], size); }
    forall b: nat ensures Requested(b, rows[..n + 1], size) <==> Requested(b, rows[..n], size) || start <= b < end {
      RequestedOneMore(rows, n, size, b);
    }
    if spans != [] && spans[|spans| - 1].end == start {
      var front, last := spans[..|spans| - 1], spans[|spans| - 1];
      assert spans == front + [last];
      more := front + [Span(last.start, end)];
      forall b: nat ensures Covered(b, more) <==> Covered(b, spans) || start <= b < end {
        CoveredOneMore(front, last, b);
        CoveredOneMore(front, Span(last.start, end), b);
      }
    } else {
      more := spans + [Span(start, end)];
      forall b: nat ensures Covered(b, more) <==> Covered(b, spans) || start <= b < end {
        CoveredOneMore(spans, Span(start, end), b);
      }
    }
  }

  /**
   The byte ranges of the requested rows in canonical form; invalid exactly when the geometry is
   unrepresentable or a row lies outside it.
   */
  method InputWritebackRanges(shape: seq<int>, itemsize: nat, axis: nat, rows: seq<nat>)
    returns (r: Option<seq<Span>>)
    ensures r.Some? <==>
            && Geometry(shape, itemsize, axis).Some?
            && forall row {:trigger row in rows} :: row in rows ==> row < Geometry(shape, itemsize, axis).value.0
    ensures r.Some? ==> Canonical(r.value)
    ensures r.Some? ==> forall b: nat {:trigger Covered(b, r.value)} ::
              Covered(b, r.value) <==> Requested(b, rows, Geometry(shape, itemsize, axis).value.1)
    ensures r.Some? ==> forall i {:trigger r.value[i]} :: 0 <= i < |r.value| ==>
              r.value[i].end <= Geometry(shape, itemsize, axis).value.0 * Geometry(shape, itemsize, axis).value.1
  {
    var geometry := Geometry(shape, itemsize, axis);
    if geometry.None? { return None; }
    var count, size := geometry.value.0, geometry.value.1;
    var distinct := SortDedup(rows);
    var spans: seq<Span> := [];
    forall b: nat ensures !Requested(b, distinct[..0], size) && !Covered(b, []) {}
    for n := 0 to |distinct|
      invariant Coalesced(spans, distinct, n, size)
      invariant forall m {:trigger distinct[m]} :: 0 <= m < n ==> distinct[m] < count
      invariant forall i {:trigger spans[i]} :: 0 <= i < |spans| ==> spans[i].end <= count * size
    {
      if distinct[n] >= count {
        assert distinct[n] in rows;
        return None;
      }
      NextRow(distinct[n], count, size);
      var more := PushRow(spans, distinct, n, size);
      BoundedSpans(spans, more, distinct, n, count, size);
      spans := more;
    }
    assert distinct[..|distinct|] == distinct;
    forall b: nat ensures Requested(b, distinct, size) <==> Requested(b, rows, size) {
      SameRequested(distinct, rows, size, b);
      SameRequested(rows, distinct, size, b);
    }
    forall row | row in rows ensures row < count {
      assert row in distinct;
    }
    r := Some(spans);
  }

  lemma {:induction false} SameRequested(a: seq<nat>, b: seq<nat>, size: nat, byte: nat)
    requires forall row {:trigger row in a} :: row in a ==> row in b
    ensures Requested(byte, a, size) ==> Requested(byte, b, size)
  {
    if Requested(byte, a, size) {
      var i :| 0 <= i < |a| && InRow(byte, a[i], size);
      assert a[i] in a;
      var j :| 0 <= j < |b| && b[j] == a[i];
    }
  }

  lemma {:induction false} BoundedSpans(spans: seq<Span>, more: seq<Span>, rows: seq<nat>, n: nat, count: nat, size: nat)
    requires Coalesced(more, rows, n + 1, size) && StrictlyAscending(rows)
    requires rows[n] < count
    ensures forall i {:trigger more[i]} :: 0 <= i < |more| ==> more[i].end <= count * size
  {
    if size > 0 {
      NextRow(rows[n], count, size);
    }
  }

  /** Canonical ranges are determined by the bytes they cover. */
  lemma {:induction false} CanonicalUnique(a: seq<Span>, b: seq<Span>)
    requires Canonical(a) && Canonical(b)
    requires forall x: nat {:trigger Covered(x, a)} {:trigger Covered(x, b)} :: Covered(x, a) <==> Covered(x, b)
    ensures a == b
    decreases |a|
  {
    if a == [] {
      if b != [] {
        assert Covered(b[0].start, b);
      }
    } else {
      assert Covered(a[0].start, a);
      assert b != [];
      assert Covered(b[0].start, b);
      FirstSpan(a, b);
      FirstSpan(b, a);
      forall x: nat ensures Covered(x, a[1..]) <==> Covered(x, b[1..]) {
        RestCovered(a, x);
        RestCovered(b, x);
      }
      CanonicalUnique(a[1..], b[1..]);
    }
  }

  lemma {:induction false} FirstSpan(a: seq<Span>, b: seq<Span>)
    requires Canonical(a) && Canonical(b) && a != [] && b != []
    requires forall x: nat {:trigger Covered(x, a)} {:trigger Covered(x, b)} :: Covered(x, a) <==> Covered(x, b)
    ensures a[0].start >= b[0].start && a[0].end <= b[0].end
  {
    assert Covered(a[0].start, a);
    assert forall i {:trigger b[i]} :: 0 <= i < |b| ==> b[0].start <= b[i].start;
    assert Covered(b[0].start, b);
    assert forall i {:trigger a[i]} :: 0 <= i < |a| ==> a[0].start <= a[i].start;
    Gap(b);
    assert !Covered(b[0].end, a);
    assert !(a[0].start <= b[0].end < a[0].end);
  }

  lemma {:induction false} Gap(b: seq<Span>)
    requires Canonical(b) && b != []
    ensures !Covered(b[0].end, b)
  {
  }

  lemma {:induction false} RestCovered(a: seq<Span>, x: nat)
    requires Canonical(a) && a != []
    ensures Covered(x, a[1..]) <==> Covered(x, a) && x >= a[0].end
  {
    if Covered(x, a[1..]) {
      var i :| 0 <= i < |a| - 1 && a[1..][i].start <= x < a[1..][i].end;
      assert a[i + 1] == a[1..][i];
    }
    if Covered(x, a) && x >= a[0].end {
      var i :| 0 <= i < |a| && a[i].start <= x < a[i].end;
      assert i > 0 && a[1..][i - 1] == a[i];
    }
  }
}
