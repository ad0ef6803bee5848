/** Flat strides: a fixed-rank array of strides, whose rank is its length, and a growable
    list of strides. The size of either is the product of its entries. */
module Strides {
  import opened Nested

  /** Stride<R>: exactly R entries. */
  datatype Stride = Stride(strides: seq<nat>)

  /** StrideDyn. */
  datatype StrideDyn = StrideDyn(strides: seq<nat>)

  /** Stride::rank: R, the number of entries. */
  function Rank(s: Stride): (r: nat)
    ensures r == |s.strides|
  {
    |s.strides|
  }

  /** Stride::size: the running product over the entries, in order. */
  method Size(s: Stride) returns (prod: nat)
    ensures prod == Product(s.strides)
  {
    prod := 1;
    var i := 0;
    while i < |s.strides|
      invariant 0 <= i <= |s.strides|
      invariant prod == Product(s.strides[..i])
    {
      assert s.strides[..i + 1] == s.strides[..i] + [s.strides[i]];
      ProductAppend(s.strides[..i], [s.strides[i]]);
      assert Product([s.strides[i]]) == s.strides[i] * Product([]);
      prod := prod * s.strides[i];
      i := i + 1;
    }
    assert s.strides[..i] == s.strides;
  }

  /** Stride::to_dynamic: the same entries in a growable list. */
  function ToDynamic(s: Stride): (d: StrideDyn)
    ensures |d.strides| == |s.strides| && forall i :: 0 <= i < |s.strides| ==> d.strides[i] == s.strides[i]
  {
    StrideDyn(s.strides)
  }

  /** StrideDyn::rank: the number of entries. */
  function DynRank(d: StrideDyn): (r: nat)
    ensures r == |d.strides|
  {
    |d.strides|
  }

  /** StrideDyn::size: the product of the entries; 1 for no entries, and zero exactly when
      some entry is zero. */
  function DynSize(d: StrideDyn): (r: nat)
    ensures d.strides == [] ==> r == 1
    ensures r == 0 <==> exists i :: 0 <= i < |d.strides| && d.strides[i] == 0
  {
    ProductZero(d.strides);
    Product(d.strides)
  }

  /** Converting to the dynamic form keeps the rank and the size. */
  method ToDynamicKeepsSize(s: Stride) returns (size: nat)
    ensures size == DynSize(ToDynamic(s)) && Rank(s) == DynRank(ToDynamic(s))
  {
    size := Size(s);
  }

  /** The tests: [1, 2, 6] has rank 3 and size 12 in both forms, and converts entry for entry;
      no entries give size 1. */
  method StrideExamples() returns (size: nat, dynSize: nat)
    ensures size == 12 && dynSize == 12
    ensures Rank(Stride([1, 2, 6])) == 3 && ToDynamic(Stride([1, 2, 6])).strides == [1, 2, 6]
    ensures DynRank(StrideDyn([1, 2, 6])) == 3 && DynSize(StrideDyn([])) == 1
  {
    assert Product([1, 2, 6]) == 12 by {
      assert [1, 2, 6][1..] == [2, 6] && [2, 6][1..] == [6] && [6][1..] == [];
    }
    size := Size(Stride([1, 2, 6]));
    dynSize := DynSize(StrideDyn([1, 2, 6]));
  }
}
