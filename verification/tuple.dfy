/** Flat integer tuples: a fixed-rank array, whose rank is its length, and a growable list.
    (The hierarchical tuple the layouts use is a different type, `Nested.Tuple`.) */
module Tuples {
  /** Tuple<R>: exactly R values. */
  datatype Tuple = Tuple(values: seq<nat>)

  /** TupleDyn. */
  datatype TupleDyn = TupleDyn(values: seq<nat>)

  /** Tuple::new: the values as given. */
  function New(values: seq<nat>): (t: Tuple)
    ensures Rank(t) == |values| && forall i :: 0 <= i < |values| ==> t.values[i] == values[i]
  {
    Tuple(values)
  }

  /** Tuple::rank: R. */
  function Rank(t: Tuple): (r: nat)
    ensures r == |t.values|
  {
    |t.values|
  }

  /** Tuple::to_dyn: the same values, in order, in a growable list. */
  function ToDyn(t: Tuple): (d: TupleDyn)
    ensures DynRank(d) == Rank(t) && forall i :: 0 <= i < Rank(t) ==> d.values[i] == t.values[i]
  {
    TupleDyn(t.values)
  }

  /** TupleDyn::new: the values as given. */
  function DynNew(values: seq<nat>): (d: TupleDyn)
    ensures DynRank(d) == |values| && forall i :: 0 <= i < |values| ==> d.values[i] == values[i]
  {
    TupleDyn(values)
  }

  /** TupleDyn::rank: the number of values. */
  function DynRank(d: TupleDyn): (r: nat)
    ensures r == |d.values|
  {
    |d.values|
  }

  /** Building statically and converting gives what building dynamically gives. */
  lemma NewToDyn(values: seq<nat>)
    ensures ToDyn(New(values)) == DynNew(values)
  {
  }

  /** The tests: (1, 2, 3) has rank 3 and converts to [1, 2, 3]; [5, 6, 7, 8] has rank 4. */
  lemma TupleExamples()
    ensures Rank(New([1, 2, 3])) == 3 && ToDyn(New([1, 2, 3])).values == [1, 2, 3]
    ensures DynRank(DynNew([5, 6, 7, 8])) == 4
  {
  }
}
