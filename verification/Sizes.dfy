/** Element counts: products of dimensions, and the same with overflow checked. */
module Sizes {
  import opened Wrappers

  const USIZE_MAX := 0xffff_ffff_ffff_ffff

  function Product(dims: seq<nat>): (p: nat) {
    if dims == [] then 1 else dims[0] * Product(dims[1..])
  }

  /** `n` times all dimensions, if none is negative and no step overflows. */
  function CheckedProduct(n: nat, dims: seq<int>): (r: Option<nat>)
    decreases |dims|
  {
    if dims == [] then Some(n)
    else if dims[0] < 0 || n * dims[0] > USIZE_MAX then None
    else CheckedProduct(n * dims[0], dims[1..])
  }

  lemma {:induction false} CheckedIsProduct(n: nat, dims: seq<nat>)
    ensures CheckedProduct(n, dims).Some? ==> CheckedProduct(n, dims).value == n * Product(dims)
    decreases |dims|
  {
    if dims != [] && n * dims[0] <= USIZE_MAX {
      CheckedIsProduct(n * dims[0], dims[1..]);
      Regroup(n, dims[0], Product(dims[1..]));
    }
  }

  /** `n` times the dimensions up to `j` is at most 2 to the 64 minus 1. */
  ghost predicate PrefixFits(n: nat, dims: seq<nat>, j: nat)
    requires j < |dims|
  {
    n * Product(dims[..j + 1]) <= 0xffff_ffff_ffff_ffff
  }

  /** The chain of checked products succeeds exactly when no prefix product exceeds 64 bits. */
  lemma {:induction false} CheckedMeans(n: nat, dims: seq<nat>)
    ensures CheckedProduct(n, dims).Some? <==>
            forall j: nat {:trigger PrefixFits(n, dims, j)} :: j < |dims| ==> PrefixFits(n, dims, j)
    decreases |dims|
  {
    if dims != [] {
      var first, rest := n * dims[0], dims[1..];
      FirstPrefix(n, dims);
      CheckedMeans(first, rest);
      forall j: nat | 0 < j < |dims| ensures PrefixFits(n, dims, j) <==> PrefixFits(first, rest, j - 1) {
        LaterPrefix(n, dims, j);
      }
      forall j: nat | j < |rest| ensures PrefixFits(first, rest, j) <==> PrefixFits(n, dims, j + 1) {
        LaterPrefix(n, dims, j + 1);
      }
    }
  }

  lemma {:induction false} FirstPrefix(n: nat, dims: seq<nat>)
    requires dims != []
    ensures PrefixFits(n, dims, 0) <==> n * dims[0] <= USIZE_MAX
  {
    var one: seq<nat> := [dims[0]];
    assert dims[..1] == one && one[1..] == [] && Product(one) == dims[0];
  }

  lemma {:induction false} LaterPrefix(n: nat, dims: seq<nat>, j: nat)
    requires 0 < j < |dims|
    ensures PrefixFits(n, dims, j) <==> PrefixFits(n * dims[0], dims[1..], j - 1)
  {
    assert dims[1..][..j] == dims[..j + 1][1..];
    Regroup(n, dims[0], Product(dims[1..][..j]));
  }

  /** A negative dimension is refused. */
  lemma {:induction false} NegativeIsRefused(n: nat, dims: seq<int>, j: nat)
    requires j < |dims| && dims[j] < 0
    ensures CheckedProduct(n, dims).None?
    decreases |dims|
  {
    if j > 0 && dims[0] >= 0 && n * dims[0] <= USIZE_MAX { NegativeIsRefused(n * dims[0], dims[1..], j - 1); }
  }

  lemma {:induction false} Regroup(a: nat, b: nat, c: nat)
    ensures a * (b * c) == (a * b) * c
  {
  }

  lemma {:induction false} ProductSplit(dims: seq<nat>, axis: nat)
    requires axis < |dims|
    ensures Product(dims) == Product(dims[..axis]) * (dims[axis] * Product(dims[axis + 1..]))
    ensures Product(dims[..axis + 1]) == Product(dims[..axis]) * dims[axis]
  {
    if axis == 0 {
      assert dims[..0] == [] && dims[1..] == dims[0 + 1..];
      assert dims[..1] == [dims[0]] && [dims[0]][1..] == [];
    } else {
      ProductSplit(dims[1..], axis - 1);
      assert dims[1..][..axis - 1] == dims[..axis][1..] && dims[1..][axis - 1 + 1..] == dims[axis + 1..];
      assert dims[1..][..axis] == dims[..axis + 1][1..];
      Regroup(dims[0], Product(dims[1..][..axis - 1]), dims[axis] * Product(dims[axis + 1..]));
      Regroup(dims[0], Product(dims[1..][..axis - 1]), dims[axis]);
    }
  }

  lemma {:induction false} Positive(a: nat, b: nat)
    ensures a * b > 0 <==> a > 0 && b > 0
  {
    if a > 0 && b > 0 { assert a * b >= b; }
  }

  lemma {:induction false} Factor(a: nat, b: nat)
    requires a * b >= 1
    ensures 1 <= a <= a * b
  {
    Positive(a, b);
    assert a * b == a * (b - 1) + a;
  }

  lemma {:induction false} PositiveProduct(dims: seq<nat>)
    ensures Product(dims) > 0 <==> 0 !in dims
  {
    if dims != [] {
      PositiveProduct(dims[1..]);
      assert 0 in dims <==> dims[0] == 0 || 0 in dims[1..];
      Positive(dims[0], Product(dims[1..]));
    }
  }

  lemma {:induction false} Monotone(a: nat, b: nat, c: nat)
    requires a <= b
    ensures a * c <= b * c
  {
  }
}
