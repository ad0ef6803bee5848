/** Flat shapes: a fixed-rank array of extents, whose rank is its length, and a growable
    list of extents. */
module Shapes {
  /** Shape<R>: exactly R extents. */
  datatype Shape = Shape(dims: seq<nat>)

  /** ShapeDyn. */
  datatype ShapeDyn = ShapeDyn(dims: seq<nat>)

  /** Shape::new: the extents as given. */
  function New(dims: seq<nat>): (s: Shape)
    ensures Rank(s) == |dims| && forall i :: 0 <= i < |dims| ==> s.dims[i] == dims[i]
  {
    Shape(dims)
  }

  /** Shape::rank: R. */
  function Rank(s: Shape): (r: nat)
    ensures r == |s.dims|
  {
    |s.dims|
  }

  /** Shape::to_dyn: the same extents, in order, in a growable list. */
  function ToDyn(s: Shape): (d: ShapeDyn)
    ensures DynRank(d) == Rank(s) && forall i :: 0 <= i < Rank(s) ==> d.dims[i] == s.dims[i]
  {
    ShapeDyn(s.dims)
  }

  /** ShapeDyn::new: the extents as given. */
  function DynNew(dims: seq<nat>): (d: ShapeDyn)
    ensures DynRank(d) == |dims| && forall i :: 0 <= i < |dims| ==> d.dims[i] == dims[i]
  {
    ShapeDyn(dims)
  }

  /** ShapeDyn::rank: the number of extents. */
  function DynRank(d: ShapeDyn): (r: nat)
    ensures r == |d.dims|
  {
    |d.dims|
  }

  /** Building statically and converting gives what building dynamically gives. */
  lemma NewToDyn(dims: seq<nat>)
    ensures ToDyn(New(dims)) == DynNew(dims)
  {
  }

  /** The tests: (10, 20) has rank 2 and converts to [10, 20]; [7, 8, 9] has rank 3. */
  lemma ShapeExamples()
    ensures Rank(New([10, 20])) == 2 && ToDyn(New([10, 20])).dims == [10, 20]
    ensures DynRank(DynNew([7, 8, 9])) == 3
  {
  }
}
