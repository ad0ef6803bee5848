/** Flat index vectors: a fixed-rank array, whose rank is its length, and a growable list. */
module Indices {
  /** Indices<R>: exactly R entries. */
  datatype Indices = Indices(values: seq<nat>)

  /** IndicesDyn. */
  datatype IndicesDyn = IndicesDyn(values: seq<nat>)

  /** Indices::zero: R zeros. */
  function Zero(r: nat): (x: Indices)
    ensures Rank(x) == r && forall i :: 0 <= i < r ==> x.values[i] == 0
  {
    Indices(seq(r, _ => 0))
  }

  /** Indices::rank: R. */
  function Rank(x: Indices): (r: nat)
    ensures r == |x.values|
  {
    |x.values|
  }

  /** Indices::to_dyn: the same values, in order, in a growable list. */
  function ToDyn(x: Indices): (d: IndicesDyn)
    ensures DynRank(d) == Rank(x) && forall i :: 0 <= i < Rank(x) ==> d.values[i] == x.values[i]
  {
    IndicesDyn(x.values)
  }

  /** IndicesDyn::zero: `rank` zeros. */
  function DynZero(rank: nat): (d: IndicesDyn)
    ensures DynRank(d) == rank && forall i :: 0 <= i < rank ==> d.values[i] == 0
  {
    IndicesDyn(seq(rank, _ => 0))
  }

  /** IndicesDyn::rank: the number of values. */
  function DynRank(d: IndicesDyn): (r: nat)
    ensures r == |d.values|
  {
    |d.values|
  }

  /** The static zero converts to the dynamic zero of the same rank. */
  lemma ZeroToDyn(r: nat)
    ensures ToDyn(Zero(r)) == DynZero(r)
  {
  }

  /** The tests: (1, 2, 3) has rank 3 and converts to [1, 2, 3]; [4, 5] has rank 2. */
  lemma IndicesExamples()
    ensures Rank(Indices([1, 2, 3])) == 3 && ToDyn(Indices([1, 2, 3])).values == [1, 2, 3]
    ensures DynRank(IndicesDyn([4, 5])) == 2
  {
  }
}
