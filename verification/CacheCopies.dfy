/**
 Copying updates into cache buffers: requested rows, packed patches, and the row interval of an
 aliased output. Each leaves exactly what the full functional result says.
 */
module CacheCopies {
  import opened Wrappers
  import opened Sizes
  import opened RowWriteback

  /** Copy `n` bytes of `src` from `from` on to `at`. */
  method CopyRun(dst: array<nat>, at: nat, src: seq<nat>, from: nat, n: nat)
    requires at + n <= dst.Length && from + n <= |src|
    modifies dst
    ensures forall b {:trigger dst[b]} :: 0 <= b < dst.Length ==>
              dst[b] == if at <= b < at + n then src[from + (b - at)] else old(dst[b])
  {
    for i := 0 to n
      invariant forall b {:trigger dst[b]} :: 0 <= b < dst.Length ==>
                  dst[b] == if at <= b < at + i then src[from + (b - at)] else old(dst[b])
    {
      dst[at + i] := src[from + i];
    }
  }

  // ---- Requested rows ---------------------------------------------------------------------------

  /** Copy canonical ranges of an array onto the same bytes of its destination. */
  method CopySpans(dst: array<nat>, src: seq<nat>, spans: seq<Span>)
    requires |src| == dst.Length
    requires forall i {:trigger spans[i]} :: 0 <= i < |spans| ==> spans[i].start <= spans[i].end <= |src|
    modifies dst
    ensures forall b {:trigger dst[b]} :: 0 <= b < dst.Length ==>
              dst[b] == if Covered(b, spans) then src[b] else old(dst[b])
  {
    for i := 0 to |spans|
      invariant forall b {:trigger dst[b]} :: 0 <= b < dst.Length ==>
                  dst[b] == if Covered(b, spans[..i]) then src[b] else old(dst[b])
    {
      CopyRun(dst, spans[i].start, src, spans[i].start, spans[i].end - spans[i].start);
      assert spans[..i + 1] == spans[..i] + [spans[i]];
      forall b: nat ensures Covered(b, spans[..i + 1]) <==> Covered(b, spans[..i]) || spans[i].start <= b < spans[i].end {
        CoveredOneMore(spans[..i], spans[i], b);
      }
    }
    assert spans[..|spans|] == spans;
  }

  /**
   Write back the requested rows of an array: the destination then holds the array on those rows
   and what it held before everywhere else.
   */
  method WriteBackRows(dst: array<nat>, src: seq<nat>, shape: seq<int>, itemsize: nat, axis: nat, rows: seq<nat>)
    returns (ok: bool)
    requires Geometry(shape, itemsize, axis).Some? ==>
               |src| == dst.Length == Geometry(shape, itemsize, axis).value.0 * Geometry(shape, itemsize, axis).value.1
    modifies dst
    ensures ok <==> Geometry(shape, itemsize, axis).Some?
                    && forall row {:trigger row in rows} :: row in rows ==> row < Geometry(shape, itemsize, axis).value.0
    ensures !ok ==> dst[..] == old(dst[..])
    ensures ok ==> forall b {:trigger dst[b]} :: 0 <= b < dst.Length ==>
              dst[b] == if Requested(b, rows, Geometry(shape, itemsize, axis).value.1) then src[b] else old(dst[b])
  {
    var ranges := InputWritebackRanges(shape, itemsize, axis, rows);
    ok := ranges.Some?;
    if ok { CopySpans(dst, src, ranges.value); }
  }

  // ---- Packed patches ---------------------------------------------------------------------------

  lemma {:induction false} RowsApart(a: nat, b: nat, size: nat, x: nat)
    requires a != b && InRow(x, a, size)
    ensures !InRow(x, b, size)
  {
    if a < b { NextRow(a, b, size); } else { NextRow(b, a, size); }
  }

  lemma {:induction false} PatchFits(i: nat, n: nat, size: nat)
    requires i < n
    ensures i * size + size <= n * size
  {
    NextRow(i, n, size);
  }

  /** No later patch among the first `n` is for the slot of patch `i`. */
  ghost predicate LastFor(rows: seq<nat>, i: nat, n: nat)
    requires n <= |rows|
  {
    i < n && forall j {:trigger rows[j]} :: i < j < n ==> rows[j] != rows[i]
  }

  /** Packed rows, each for a slot: a slot's row becomes the last patch for it, every other row stays. */
  method ApplyPatches(dst: array<nat>, patches: seq<nat>, rows: seq<nat>, slots: nat, size: nat)
    requires |patches| == |rows| * size && dst.Length == slots * size
    requires forall i {:trigger rows[i]} :: 0 <= i < |rows| ==> rows[i] < slots
    modifies dst
    ensures forall i: nat {:trigger LastFor(rows, i, |rows|)} :: LastFor(rows, i, |rows|) ==> HoldsPatch(dst[..], patches, rows[i], i, size)
    ensures forall b: nat {:trigger dst[b]} :: b < dst.Length && !Requested(b, rows, size) ==> dst[b] == old(dst[b])
  {
    for n := 0 to |rows|
      invariant forall b: nat {:trigger dst[b]} :: b < dst.Length && !Requested(b, rows[..n], size) ==> dst[b] == old(dst[b])
      invariant forall i: nat {:trigger LastFor(rows, i, n)} :: LastFor(rows, i, n) ==> HoldsPatch(dst[..], patches, rows[i], i, size)
    {
      PatchFits(n, |rows|, size);
      PatchFits(rows[n], slots, size);
      ghost var before := dst[..];
      CopyRun(dst, rows[n] * size, patches, n * size, size);
      forall i: nat | LastFor(rows, i, n + 1) ensures HoldsPatch(dst[..], patches, rows[i], i, size) {
        if i < n {
          assert LastFor(rows, i, n) && rows[n] != rows[i];
          KeepsPatch(before, dst[..], patches, rows[i], rows[n], i, size);
        }
      }
      forall b: nat ensures Requested(b, rows[..n + 1], size) <==> Requested(b, rows[..n], size) || InRow(b, rows[n], size) {
        RequestedOneMore(rows, n, size, b);
      }
    }
    assert rows[..|rows|] == rows;
  }

  /** Row `row` of the buffer is patch `i`. */
  ghost predicate HoldsPatch(buffer: seq<nat>, patches: seq<nat>, row: nat, i: nat, size: nat) {
    && row * size + size <= |buffer| && i * size + size <= |patches|
    && forall b: nat {:trigger buffer[b]} :: InRow(b, row, size) ==> buffer[b] == patches[i * size + (b - row * size)]
  }

  lemma {:induction false} HoldsPatchMeans(buffer: seq<nat>, patches: seq<nat>, row: nat, i: nat, size: nat, x: nat)
    requires HoldsPatch(buffer, patches, row, i, size) && x < size
    ensures row * size + x < |buffer| && i * size + x < |patches| && buffer[row * size + x] == patches[i * size + x]
  {
    assert InRow(row * size + x, row, size);
  }

  lemma {:induction false} KeepsPatch(before: seq<nat>, now: seq<nat>, patches: seq<nat>, row: nat, other: nat, i: nat,
                                      size: nat)
    requires HoldsPatch(before, patches, row, i, size) && row != other && |now| == |before|
    requires forall b: nat {:trigger now[b]} :: b < |now| && !InRow(b, other, size) ==> now[b] == before[b]
    ensures HoldsPatch(now, patches, row, i, size)
  {
    forall b: nat | InRow(b, row, size) ensures now[b] == patches[i * size + (b - row * size)] {
      RowsApart(row, other, size, b);
      assert before[b] == now[b];
    }
  }

  // ---- Delta copy-out ---------------------------------------------------------------------------

  /** Which rows of which axis an output wrote, and the input buffer it is expected to alias. */
  datatype Delta = Delta(axis: nat, offset: int, count: int, alias: nat)

  function AtLeastOne(n: nat): (m: nat) { if n == 0 then 1 else n }

  /** Rows of the axis that are copied: the interval cut off at its end. */
  function RowsCopied(d: Delta, length: nat): (n: nat)
    requires d.count >= 0
  {
    var offset := if d.offset < 0 then 0 else d.offset;
    var room := if offset <= length then length - offset else 0;
    if d.count <= room then d.count else room
  }

  /** The slab layout of a delta: slabs, bytes from slab to slab, first byte and bytes in each. */
  datatype Slabs = Slabs(outer: nat, stride: nat, start: nat, run: nat)

  function SlabsOf(shape: seq<nat>, itemsize: nat, d: Delta): (s: Slabs)
    requires d.axis < |shape| && d.count >= 0
  {
    var inner := AtLeastOne(Product(shape[d.axis + 1..]));
    var offset := if d.offset < 0 then 0 else d.offset;
    Slabs(AtLeastOne(Product(shape[..d.axis])), shape[d.axis] * inner * itemsize, offset * inner * itemsize,
          RowsCopied(d, shape[d.axis]) * inner * itemsize)
  }

  /** Byte `b` is copied by slab `o`. */
  predicate InSlab(b: nat, o: nat, s: Slabs) {
    o * s.stride + s.start <= b < o * s.stride + s.start + s.run
  }

  /** Byte `b` is copied by one of the first `n` slabs. */
  ghost predicate InDelta(b: nat, n: nat, s: Slabs) {
    exists o: nat {:trigger InSlab(b, o, s)} :: o < n && InSlab(b, o, s)
  }

  /** Copy the same run of every slab. */
  method CopySlabs(dst: array<nat>, src: seq<nat>, s: Slabs)
    requires |src| == dst.Length == s.outer * s.stride && s.start + s.run <= s.stride
    modifies dst
    ensures forall b: nat {:trigger dst[b]} :: b < dst.Length ==>
              dst[b] == if InDelta(b, s.outer, s) then src[b] else old(dst[b])
  {
    for o := 0 to s.outer
      invariant forall b: nat {:trigger dst[b]} :: b < dst.Length ==>
                  dst[b] == if InDelta(b, o, s) then src[b] else old(dst[b])
    {
      PatchFits(o, s.outer, s.stride);
      CopyRun(dst, o * s.stride + s.start, src, o * s.stride + s.start, s.run);
      assert forall b: nat {:trigger InDelta(b, o + 1, s)} :: InDelta(b, o + 1, s) <==> InDelta(b, o, s) || InSlab(b, o, s);
    }
  }

  lemma {:induction false} StartPlusRun(offset: nat, n: nat, inner: nat, itemsize: nat)
    ensures offset * inner * itemsize + n * inner * itemsize == (offset + n) * inner * itemsize
  {
    assert (offset + n) * inner == offset * inner + n * inner;
    assert (offset * inner + n * inner) * itemsize == offset * inner * itemsize + n * inner * itemsize;
  }

  lemma {:induction false} SlabTotal(a: nat, l: nat, i: nat, z: nat)
    ensures a * (l * i * z) == (a * (l * i)) * z
  {
    Regroup(a, l * i, z);
  }

  /** The geometry of the slabs when no extent is zero. */
  lemma {:induction false} SlabsFill(shape: seq<nat>, itemsize: nat, d: Delta)
    requires d.axis < |shape| && d.count >= 0 && 0 !in shape
    ensures var s := SlabsOf(shape, itemsize, d);
            && s.outer * s.stride == Product(shape) * itemsize
            && (RowsCopied(d, shape[d.axis]) > 0 ==> s.start + s.run <= s.stride)
  {
    var before, length, behind := Product(shape[..d.axis]), shape[d.axis], Product(shape[d.axis + 1..]);
    ProductSplit(shape, d.axis);
    PositiveProduct(shape);
    Positive(before, length * behind);
    Positive(length, behind);
    SlabTotal(before, length, behind, itemsize);
    var offset := if d.offset < 0 then 0 else d.offset;
    var n := RowsCopied(d, length);
    StartPlusRun(offset, n, behind, itemsize);
    if n > 0 {
      Monotone(offset + n, length, behind);
      Monotone((offset + n) * behind, length * behind, itemsize);
    }
  }

  /** Every slab run lies inside a buffer of the array's size. */
  ghost predicate RunsInBounds(shape: seq<nat>, itemsize: nat, d: Delta)
    requires d.axis < |shape| && d.count >= 0
  {
    var s := SlabsOf(shape, itemsize, d);
    forall o: nat {:trigger o * s.stride} :: o < s.outer ==> o * s.stride + s.start + s.run <= Product(shape) * itemsize
  }

  /**
   The runs stay in bounds exactly when the array is not empty: a zero extent before or behind the
   axis still counts as one slab or one element.
   */
  lemma {:induction false} InBoundsIffNotEmpty(shape: seq<nat>, itemsize: nat, d: Delta)
    requires d.axis < |shape| && d.count >= 0 && itemsize > 0 && RowsCopied(d, shape[d.axis]) > 0
    ensures RunsInBounds(shape, itemsize, d) <==> 0 !in shape
  {
    var s := SlabsOf(shape, itemsize, d);
    PositiveProduct(shape);
    if 0 in shape {
      var inner := AtLeastOne(Product(shape[d.axis + 1..]));
      Positive(RowsCopied(d, shape[d.axis]), inner);
      Positive(RowsCopied(d, shape[d.axis]) * inner, itemsize);
      assert 0 * s.stride + s.start + s.run > 0 == Product(shape) * itemsize;
    } else {
      SlabsFill(shape, itemsize, d);
      forall o: nat | o < s.outer ensures o * s.stride + s.start + s.run <= Product(shape) * itemsize {
        PatchFits(o, s.outer, s.stride);
      }
    }
  }

  /** The delta is used: it names rows, an axis of the output, and the very buffer it aliases. */
  predicate Applies(delta: Option<Delta>, rank: nat, address: nat) {
    delta.Some? && delta.value.count > 0 && delta.value.axis < rank && delta.value.alias != 0 && delta.value.alias == address
  }

  /** The buffer already holds every byte the delta does not copy. */
  ghost predicate Prepared(buffer: seq<nat>, src: seq<nat>, shape: seq<nat>, itemsize: nat, d: Delta)
    requires d.axis < |shape| && d.count >= 0
  {
    var s := SlabsOf(shape, itemsize, d);
    |buffer| == |src| && forall b: nat {:trigger src[b]} :: b < |src| && !InDelta(b, s.outer, s) ==> buffer[b] == src[b]
  }

  /** Every copy of the delta lies inside the buffer. */
  predicate Fits(shape: seq<nat>, d: Delta)
    requires d.axis < |shape| && d.count >= 0
  {
    0 !in shape || RowsCopied(d, shape[d.axis]) == 0
  }

  /**
   Two deltas the code records for arrays without elements: a cache with an empty batch, and a row
   writeback to a cache with an empty dimension behind the axis. If both buffers have an address,
   the first run already leaves them.
   */
  lemma EmptyArraysOverrun()
    ensures var shape, d := [0, 2, 4, 8], Delta(2, 0, 1, 64);
            Applies(Some(d), |shape|, 64) && Product(shape) == 0 && !Fits(shape, d) && !RunsInBounds(shape, 2, d)
    ensures var shape, d := [2, 16, 0, 8], Delta(1, 0, 1, 64);
            && Geometry(shape, 2, 1) == Some((32, 0))
            && Applies(Some(d), |shape|, 64) && Product(shape) == 0 && !Fits(shape, d) && !RunsInBounds(shape, 2, d)
  {
    var batch: seq<nat>, behind: seq<nat> := [0, 2, 4, 8], [2, 16, 0, 8];
    InBoundsIffNotEmpty(batch, 2, Delta(2, 0, 1, 64));
    InBoundsIffNotEmpty(behind, 2, Delta(1, 0, 1, 64));
    PositiveProduct(batch);
    PositiveProduct(behind);
    EmptyBehind(behind);
  }

  lemma EmptyBehind(shape: seq<nat>)
    requires shape == [2, 16, 0, 8]
    ensures Geometry(shape, 2, 1) == Some((32, 0))
  {
    var dims: seq<nat> := seq(|shape|, i requires 0 <= i < |shape| => shape[i]);
    assert dims == shape && dims[..2] == [2, 16] && dims[2..] == [0, 8];
    assert [2, 16][1..] == [16] && [0, 8][1..] == [8];
    assert CheckedProduct(1, [2, 16]) == CheckedProduct(2, [16]) == CheckedProduct(32, []) == Some(32);
    assert CheckedProduct(2, [0, 8]) == CheckedProduct(0, [8]) == CheckedProduct(0, []) == Some(0);
  }

  /**
   Publish an output whose array is at address `source` to the buffer at `address`; zero is null.
   With a delta only its rows are copied, and the buffer still ends up equal to the whole new array
   if it held every other row before. The copy leaves the buffer exactly for a delta with rows on
   an array without elements; the model stops there.
   */
  method CopyOut(dst: array<nat>, address: nat, src: seq<nat>, source: nat, shape: seq<nat>, itemsize: nat,
                 delta: Option<Delta>)
    returns (inside: bool)
    requires |src| == dst.Length == Product(shape) * itemsize && itemsize > 0
    requires source == address != 0 ==> dst[..] == src
    modifies dst
    ensures inside <==>
            || source == 0 || source == address || !(address != 0 && delta.Some? && delta.value.alias == address)
            || delta.value.count <= 0 || delta.value.axis >= |shape|
            || 0 !in shape || shape[delta.value.axis] == 0 || shape[delta.value.axis] <= delta.value.offset
    ensures source == 0 || address == 0 || !inside ==> dst[..] == old(dst[..])
    ensures source != 0 && address != 0
            && (delta.None? || delta.value.count <= 0 || delta.value.axis >= |shape| || delta.value.alias != address)
            ==> dst[..] == src
    ensures source != 0 && source != address && address != 0 && 0 !in shape && delta.Some?
            && delta.value.count > 0 && delta.value.axis < |shape| && delta.value.alias == address
            ==> RowsArrived(dst[..], old(dst[..]), src, shape, itemsize, delta.value)
    ensures inside && source != 0 && Applies(delta, |shape|, address) ==>
              old(Prepared(dst[..], src, shape, itemsize, delta.value)) ==> dst[..] == src
  {
    if source == 0 || address == 0 || source == address { return true; }
    if !Applies(delta, |shape|, address) {
      CopyRun(dst, 0, src, 0, |src|);
      return true;
    }
    inside := Fits(shape, delta.value);
    ghost var was := dst[..];
    if RowsCopied(delta.value, shape[delta.value.axis]) == 0 {
      NothingCopied(SlabsOf(shape, itemsize, delta.value));
    } else {
      InBoundsIffNotEmpty(shape, itemsize, delta.value);
      if inside {
        SlabsFill(shape, itemsize, delta.value);
        CopySlabs(dst, src, SlabsOf(shape, itemsize, delta.value));
      }
    }
    if 0 !in shape { DeltaIsRows(dst[..], was, src, shape, itemsize, delta.value); }
  }

  /**
   Exactly the rows `offset` up to `offset + count` of the axis, in every group before it, hold the
   new array; every other row is as it was.
   */
  ghost predicate RowsArrived(now: seq<nat>, was: seq<nat>, src: seq<nat>, shape: seq<nat>, itemsize: nat, d: Delta)
    requires d.axis < |shape|
  {
    && |now| == |was| == |src|
    && forall o: nat, r: nat, x: nat {:trigger ByteOf(shape, itemsize, d.axis, o, r, x)} ::
         o < Product(shape[..d.axis]) && r < shape[d.axis] && x < Product(shape[d.axis + 1..]) * itemsize ==>
           var b, from := ByteOf(shape, itemsize, d.axis, o, r, x), if d.offset < 0 then 0 else d.offset;
           b < |now| && now[b] == if from <= r < from + d.count then src[b] else was[b]
  }

  /** Byte `x` of row `r` of the axis in group `o`. */
  function ByteOf(shape: seq<nat>, itemsize: nat, axis: nat, o: nat, r: nat, x: nat): (b: nat)
    requires axis < |shape|
  {
    (o * shape[axis] + r) * (Product(shape[axis + 1..]) * itemsize) + x
  }

  lemma {:induction false} RowBounds(r: nat, off: nat, n: nat, size: nat, x: nat)
    requires x < size
    ensures off * size <= r * size + x < off * size + n * size <==> off <= r < off + n
  {
    StartPlusRun(off, n, size, 1);
    if off <= r { Monotone(off, r, size); } else { NextRow(r, off, size); }
    if r < off + n { Monotone(r + 1, off + n, size); } else { Monotone(off + n, r, size); }
  }

  lemma {:induction false} RowInSlab(
    o: nat, r: nat, x: nat, outer: nat, length: nat, size: nat, off: nat, n: nat)
    requires o < outer && r < length && x < size && off + n <= length
    ensures var s := Slabs(outer, length * size, off * size, n * size);
            InDelta((o * length + r) * size + x, outer, s) <==> off <= r < off + n
  {
    var s, b := Slabs(outer, length * size, off * size, n * size), (o * length + r) * size + x;
    Regroup(o, length, size);
    assert (o * length + r) * size == o * length * size + r * size;
    assert b == o * s.stride + (r * size + x);
    FlatRow(r, length, size, x);
    StartPlusRun(off, n, size, 1);
    Monotone(off + n, length, size);
    RowBounds(r, off, n, size, x);
    assert InSlab(b, o, s) <==> off <= r < off + n;
    forall p: nat | p != o ensures !InSlab(b, p, s) {
      if p < o { NextRow(p, o, s.stride); } else { NextRow(o, p, s.stride); }
    }
  }

  lemma {:induction false} FlatRow(r: nat, length: nat, size: nat, x: nat)
    requires r < length && x < size
    ensures r * size + x < length * size
  {
    NextRow(r, length, size);
  }

  lemma {:induction false} SlabsAreRows(shape: seq<nat>, itemsize: nat, d: Delta)
    requires d.axis < |shape| && d.count >= 0 && 0 !in shape
    ensures var size := Product(shape[d.axis + 1..]) * itemsize;
            SlabsOf(shape, itemsize, d)
            == Slabs(Product(shape[..d.axis]), shape[d.axis] * size, (if d.offset < 0 then 0 else d.offset) * size,
                     RowsCopied(d, shape[d.axis]) * size)
  {
    PositiveProduct(shape[..d.axis]);
    PositiveProduct(shape[d.axis + 1..]);
    assert 0 !in shape[..d.axis] && 0 !in shape[d.axis + 1..];
    var inner := Product(shape[d.axis + 1..]);
    Regroup(shape[d.axis], inner, itemsize);
    Regroup(if d.offset < 0 then 0 else d.offset, inner, itemsize);
    Regroup(RowsCopied(d, shape[d.axis]), inner, itemsize);
  }

  lemma {:induction false} ByteFits(shape: seq<nat>, itemsize: nat, axis: nat, o: nat, r: nat, x: nat)
    requires axis < |shape| && o < Product(shape[..axis]) && r < shape[axis] && x < Product(shape[axis + 1..]) * itemsize
    ensures ByteOf(shape, itemsize, axis, o, r, x) < Product(shape) * itemsize
  {
    var size := Product(shape[axis + 1..]) * itemsize;
    FlatRow(o, Product(shape[..axis]), shape[axis], r);
    FlatRow(o * shape[axis] + r, Product(shape[..axis]) * shape[axis], size, x);
    ProductSplit(shape, axis);
    SameTotal(shape, itemsize, axis);
  }

  lemma {:induction false} DeltaIsRows(now: seq<nat>, was: seq<nat>, src: seq<nat>, shape: seq<nat>, itemsize: nat, d: Delta)
    requires d.axis < |shape| && d.count > 0 && 0 !in shape && itemsize > 0
    requires |now| == |was| == |src| == Product(shape) * itemsize
    requires var s := SlabsOf(shape, itemsize, d);
             forall b: nat {:trigger now[b]} :: b < |now| ==> now[b] == if InDelta(b, s.outer, s) then src[b] else was[b]
    ensures RowsArrived(now, was, src, shape, itemsize, d)
  {
    var outer, length, inner := Product(shape[..d.axis]), shape[d.axis], Product(shape[d.axis + 1..]);
    var size, n := inner * itemsize, RowsCopied(d, length);
    var off := if d.offset < 0 then 0 else d.offset;
    SlabsAreRows(shape, itemsize, d);
    forall o: nat, r: nat, x: nat | o < outer && r < length && x < size
      ensures var b := ByteOf(shape, itemsize, d.axis, o, r, x);
              b < |now| && now[b] == if off <= r < off + d.count then src[b] else was[b]
    {
      var b := ByteOf(shape, itemsize, d.axis, o, r, x);
      ByteFits(shape, itemsize, d.axis, o, r, x);
      if off + n <= length {
        RowInSlab(o, r, x, outer, length, size, off, n);
      } else {
        NothingCopied(SlabsOf(shape, itemsize, d));
      }
    }
  }

  lemma {:induction false} NothingCopied(s: Slabs)
    requires s.run == 0
    ensures forall b: nat {:trigger InDelta(b, s.outer, s)} :: !InDelta(b, s.outer, s)
  {
  }

  // ---- The row interval of a writeback ----------------------------------------------------------

  /** The least and the greatest row of the axis among flattened row numbers. */
  method RowInterval(rows: seq<nat>, length: nat) returns (first: nat, last: nat)
    requires rows != [] && length > 0
    ensures first <= last < length
    ensures forall i {:trigger rows[i]} :: 0 <= i < |rows| ==> first <= rows[i] % length <= last
    ensures exists i {:trigger rows[i]} :: 0 <= i < |rows| && rows[i] % length == first
    ensures exists i {:trigger rows[i]} :: 0 <= i < |rows| && rows[i] % length == last
  {
    first, last := rows[0] % length, rows[0] % length;
    for n := 1 to |rows|
      invariant first <= last < length
      invariant forall i {:trigger rows[i]} :: 0 <= i < n ==> first <= rows[i] % length <= last
      invariant exists i {:trigger rows[i]} :: 0 <= i < n && rows[i] % length == first
      invariant exists i {:trigger rows[i]} :: 0 <= i < n && rows[i] % length == last
    {
      var r := rows[n] % length;
      if r < first { first := r; }
      if r > last { last := r; }
    }
  }

  /** The slabs of the row interval `first..last` of every group of `length` rows. */
  function IntervalSlabs(outer: nat, length: nat, size: nat, first: nat, last: nat): (slabs: Slabs)
    requires first <= last
  {
    Slabs(outer, length * size, first * size, (last - first + 1) * size)
  }

  /** A flattened row number whose row of the axis lies in the interval. */
  predicate Inside(row: nat, outer: nat, length: nat, first: nat, last: nat) {
    length > 0 && row < outer * length && first <= row % length <= last
  }

  lemma {:induction false} SlabOfRow(row: nat, outer: nat, length: nat, size: nat, first: nat, last: nat, b: nat)
    requires Inside(row, outer, length, first, last) && InRow(b, row, size)
    ensures row / length < outer
    ensures InSlab(b, row / length, IntervalSlabs(outer, length, size, first, last))
  {
    var o, r := row / length, row % length;
    assert row == o * length + r;
    assert o >= outer ==> o * length >= outer * length;
    assert row * size == o * (length * size) + r * size by { Regroup(o, length, size); }
    Monotone(first, r, size);
    Monotone(r + 1, last + 1, size);
    StartPlusRun(first, last - first + 1, size, 1);
  }

  lemma {:induction false} RowInDelta(row: nat, outer: nat, length: nat, size: nat, first: nat, last: nat, b: nat)
    requires Inside(row, outer, length, first, last) && InRow(b, row, size)
    ensures first <= last && InDelta(b, outer, IntervalSlabs(outer, length, size, first, last))
  {
    SlabOfRow(row, outer, length, size, first, last, b);
  }

  lemma {:induction false} RequestedInDelta(b: nat, rows: seq<nat>, outer: nat, length: nat, size: nat, first: nat,
                                            last: nat)
    requires first <= last && Requested(b, rows, size)
    requires forall i {:trigger rows[i]} :: 0 <= i < |rows| ==> Inside(rows[i], outer, length, first, last)
    ensures InDelta(b, outer, IntervalSlabs(outer, length, size, first, last))
  {
    var i :| 0 <= i < |rows| && InRow(b, rows[i], size);
    RowInDelta(rows[i], outer, length, size, first, last, b);
  }

  /** An array that differs from the buffer only in the written rows is ready for their interval. */
  lemma {:induction false} IntervalPrepares(
    buffer: seq<nat>, src: seq<nat>, rows: seq<nat>, outer: nat, length: nat, size: nat, first: nat, last: nat)
    requires |buffer| == |src| && first <= last
    requires forall i {:trigger rows[i]} :: 0 <= i < |rows| ==> Inside(rows[i], outer, length, first, last)
    requires forall b: nat {:trigger src[b]} :: b < |src| && !Requested(b, rows, size) ==> buffer[b] == src[b]
    ensures forall b: nat {:trigger src[b]} ::
              b < |src| && !InDelta(b, outer, IntervalSlabs(outer, length, size, first, last)) ==> buffer[b] == src[b]
  {
    forall b: nat | b < |src| && !InDelta(b, outer, IntervalSlabs(outer, length, size, first, last))
      ensures buffer[b] == src[b]
    {
      if Requested(b, rows, size) { RequestedInDelta(b, rows, outer, length, size, first, last); }
    }
  }

  /** The delta recorded for a row writeback makes the aliased copy-out equal to a full one. */
  lemma {:induction false} WritebackPrepares(
    buffer: seq<nat>, src: seq<nat>, shape: seq<nat>, itemsize: nat, axis: nat, rows: seq<nat>, first: nat, last: nat,
    alias: nat)
    requires axis < |shape| && 0 !in shape && |buffer| == |src| && first <= last < shape[axis]
    requires forall i {:trigger rows[i]} :: 0 <= i < |rows| ==>
               Inside(rows[i], Product(shape[..axis]), shape[axis], first, last)
    requires forall b: nat {:trigger src[b]} :: b < |src| && !Requested(b, rows, Product(shape[axis + 1..]) * itemsize) ==>
               buffer[b] == src[b]
    ensures Prepared(buffer, src, shape, itemsize, Delta(axis, first, last - first + 1, alias))
  {
    var outer, length, inner := Product(shape[..axis]), shape[axis], Product(shape[axis + 1..]);
    PositiveProduct(shape[..axis]);
    PositiveProduct(shape[axis + 1..]);
    assert 0 !in shape[..axis] && 0 !in shape[axis + 1..];
    var size := inner * itemsize;
    var d := Delta(axis, first, last - first + 1, alias);
    Regroup(length, inner, itemsize);
    Regroup(first, inner, itemsize);
    Regroup(last - first + 1, inner, itemsize);
    assert SlabsOf(shape, itemsize, d) == IntervalSlabs(outer, length, size, first, last);
    IntervalPrepares(buffer, src, rows, outer, length, size, first, last);
  }

  // ---- A row writeback and its aliased output ---------------------------------------------------

  /** Rows up to an axis are the groups before it times its length. */
  lemma {:induction false} RowsInside(shape: seq<nat>, axis: nat, row: nat, first: nat, last: nat)
    requires axis < |shape| && row < Product(shape[..axis + 1]) && shape[axis] > 0
    requires first <= row % shape[axis] <= last
    ensures Inside(row, Product(shape[..axis]), shape[axis], first, last)
  {
    ProductSplit(shape, axis);
  }

  /**
   An operator updates rows of a cache in place and its output aliases that cache: the delta of the
   rows is copied out first, then the rows are written back. If the new array differs from the
   buffer in those rows only, the buffer ends up holding the whole new array. A request is refused
   exactly when its geometry or a row is not valid; a copy leaves the buffer exactly when rows of an
   array without elements are asked for.
   */
  method PublishRows(dst: array<nat>, address: nat, src: seq<nat>, source: nat, shape: seq<nat>, itemsize: nat,
                     axis: nat, rows: seq<nat>)
    returns (ok: bool, inside: bool)
    requires |src| == dst.Length == Product(shape) * itemsize && itemsize > 0
    requires address != 0 && source != 0 && source != address
    requires forall b: nat {:trigger src[b]} :: b < |src| && !Requested(b, rows, RowSize(shape, itemsize, axis)) ==>
               dst[b] == src[b]
    modifies dst
    ensures ok <==>
            && Geometry(shape, itemsize, axis).Some?
            && forall row {:trigger row in rows} :: row in rows ==> row < Geometry(shape, itemsize, axis).value.0
    ensures dst[..] == if ok then src else old(dst[..])
    ensures inside <==> !ok || rows == [] || 0 !in shape
  {
    var ranges := InputWritebackRanges(shape, itemsize, axis, rows);
    ok, inside := ranges.Some?, true;
    if !ok { return; }
    GeometryCounts(shape, itemsize, axis);
    ProductSplit(shape, axis);
    var delta: Option<Delta> := None;
    if rows != [] {
      assert rows[0] in rows && Product(shape[..axis + 1]) > 0;
      Positive(Product(shape[..axis]), shape[axis]);
      var first, last := RowInterval(rows, shape[axis]);
      delta := Some(Delta(axis, first, last - first + 1, address));
      forall i | 0 <= i < |rows| ensures Inside(rows[i], Product(shape[..axis]), shape[axis], first, last) {
        assert rows[i] in rows;
        RowsInside(shape, axis, rows[i], first, last);
      }
      if 0 !in shape { WritebackPrepares(dst[..], src, shape, itemsize, axis, rows, first, last, address); }
      InBoundsIffNotEmpty(shape, itemsize, delta.value);
      PositiveProduct(shape);
    }
    inside := CopyOut(dst, address, src, source, shape, itemsize, delta);
    assert dst[..] == src;
    SameTotal(shape, itemsize, axis);
    CopySpans(dst, src, ranges.value);
  }

  /** Bytes of one row of an axis. */
  function RowSize(shape: seq<nat>, itemsize: nat, axis: nat): (size: nat) {
    if axis < |shape| then Product(shape[axis + 1..]) * itemsize else 0
  }

  lemma {:induction false} SameTotal(shape: seq<nat>, itemsize: nat, axis: nat)
    requires axis < |shape|
    ensures Product(shape[..axis + 1]) * (Product(shape[axis + 1..]) * itemsize) == Product(shape) * itemsize
  {
    ProductSplit(shape, axis);
    Regroup(Product(shape[..axis]), shape[axis], Product(shape[axis + 1..]));
    Regroup(Product(shape[..axis + 1]), Product(shape[axis + 1..]), itemsize);
  }
}
