/** The step-by-one coordinate iterator over a box, and the tile and remainder start lists
    the library's tests expect from a layout divided by a tiler. The iterator is the
    odometer with every step 1: its k-th coordinate is the mixed-radix expansion of k over
    the extents (a zero extent counts as a single position 0). */
module LayoutIter {
  import opened Options
  import opened Nested
  import opened Arith
  import opened Odometer

  function Ones(n: nat): (o: seq<nat>)
    ensures |o| == n && Positive(o) && forall k :: 0 <= k < n ==> o[k] == 1
  {
    seq(n, k => 1)
  }

  /** Positions per dimension of the step-one counter: the extent itself, or a single
      position for a zero extent. */
  function Extents(shape: seq<nat>): (r: seq<nat>)
    ensures |r| == |shape| && Positive(r)
    ensures forall d :: 0 <= d < |shape| ==> r[d] == (if shape[d] == 0 then 1 else shape[d])
  {
    var r := Radii(shape, Ones(|shape|), |shape|);
    assert forall d :: 0 <= d < |shape| ==> r[d] == (if shape[d] == 0 then 1 else shape[d]) by {
      forall d | 0 <= d < |shape| ensures r[d] == (if shape[d] == 0 then 1 else shape[d]) {
        if shape[d] > 0 {
          DivModUnique(shape[d], shape[d], 0, 1);
        }
      }
    }
    r
  }

  /** The k-th coordinate the iterator yields. */
  function Coord(shape: seq<nat>, k: nat): (c: seq<nat>)
    ensures |c| == |shape|
  {
    Digits(Extents(shape), k)
  }

  /** How many coordinates the iterator yields. */
  function CoordCount(shape: seq<nat>): nat
  {
    Product(Extents(shape))
  }

  lemma ScaleOnes(ds: seq<nat>)
    ensures Scale(ds, Ones(|ds|)) == ds
  {
  }

  /** One step of the carry loop with step 1 moves coordinate j to coordinate j + 1, and
      after the last coordinate wraps to all zeros and signals the end. */
  lemma CoordStep(shape: seq<nat>, j: nat)
    requires |shape| >= 1 && j < CoordCount(shape)
    ensures var c := Carry(Coord(shape, j), Ones(|shape|), shape, |shape|);
      (c.1 <==> j + 1 == CoordCount(shape)) &&
      c.0 == (if c.1 then Zeros(|shape|) else Coord(shape, j + 1))
  {
    var n := |shape|;
    assert Radii(shape, Ones(n), n) == Extents(shape);
    CounterStep(Ones(n), shape, n, j);
    ScaleOnes(Coord(shape, j));
    ScaleOnes(Coord(shape, j + 1));
  }

  class LayoutIterator {
    const shape: seq<nat>
    var current: seq<nat>
    var done: bool
    /** How many coordinates have been yielded so far. */
    ghost var count: nat

    /** The counter holds the next coordinate, and is back at all zeros with `done` set once
        every coordinate has been yielded. */
    ghost predicate Valid()
      reads this
    {
      |shape| >= 1 &&
      count <= CoordCount(shape) &&
      (done <==> count == CoordCount(shape)) &&
      current == (if done then Zeros(|shape|) else Coord(shape, count))
    }

    /** LayoutIterator::new: the counter starts at all zeros, nothing yielded yet. */
    constructor (s: seq<nat>)
      requires |s| >= 1
      ensures shape == s && current == Zeros(|s|) && !done && count == 0
      ensures Valid()
    {
      shape := s;
      current := Zeros(|s|);
      done := false;
      count := 0;
      DigitsZero(Extents(s));
      ProductPositive(Extents(s));
    }

    /** next: yields the counter, then adds one to it, last dimension first, carrying
        leftwards; a wrap of dimension 0 sets `done`, after which nothing more is yielded. */
    method Next() returns (r: Option<seq<nat>>)
      requires Valid()
      modifies this
      ensures Valid()
      ensures old(done) ==> r.None? && done && count == old(count) && current == old(current)
      ensures !old(done) ==> r == Some(Coord(shape, old(count))) && count == old(count) + 1
      ensures !old(done) ==> (current, done) == Carry(old(current), Ones(|shape|), shape, |shape|)
    {
      if done {
        return None;
      }
      var result := current;
      Advance();
      CoordStep(shape, count);
      count := count + 1;
      r := Some(result);
    }

    /** The carry loop of next: the last dimension steps by one; a dimension that reaches its
        extent goes back to 0 and carries left; a wrap of dimension 0 sets `done`. */
    method Advance()
      requires !done && |current| == |shape|
      modifies this
      ensures count == old(count)
      ensures (current, done) == Carry(old(current), Ones(|shape|), shape, |shape|)
    {
      ghost var target := Carry(current, Ones(|shape|), shape, |shape|);
      var i := |current|;
      while i > 0
        invariant 0 <= i <= |shape| && |current| == |shape| && count == old(count)
        invariant done ==> i == 0 && (current, true) == target
        invariant !done ==> Carry(current, Ones(|shape|), shape, i) == target
      {
        ghost var before := current;
        i := i - 1;
        current := current[i := current[i] + 1];
        if current[i] < shape[i] {
          break;
        }
        current := current[i := 0];
        assert current == before[i := 0];
        if i == 0 {
          done := true;
        }
      }
      assert (current, done) == target;
    }
  }

  /** Draining a fresh iterator yields exactly the coordinates 0 .. CoordCount-1, in order. */
  method AllCoords(shape: seq<nat>) returns (coords: seq<seq<nat>>)
    requires |shape| >= 1
    ensures |coords| == CoordCount(shape)
    ensures forall k :: 0 <= k < |coords| ==> coords[k] == Coord(shape, k)
  {
    var it := new LayoutIterator(shape);
    coords := [];
    while true
      invariant it.Valid() && it.shape == shape
      invariant |coords| == it.count
      invariant forall k :: 0 <= k < |coords| ==> coords[k] == Coord(shape, k)
      decreases CoordCount(shape) - it.count
    {
      var c := it.Next();
      if c.None? {
        break;
      }
      coords := coords + [c.value];
    }
  }

  /* ---------- what the iterator enumerates ---------- */

  /** x is a coordinate of the box: one entry per dimension, each below its extent. */
  predicate InShapeBox(x: seq<nat>, shape: seq<nat>)
  {
    |x| == |shape| && forall d :: 0 <= d < |x| ==> x[d] < shape[d]
  }

  /** On extents all at least 1, every coordinate yielded lies in the box, and every
      coordinate of the box is yielded, at position Encode(shape, x). */
  lemma Enumerates(shape: seq<nat>, k: nat, x: seq<nat>)
    requires Positive(shape)
    ensures CoordCount(shape) == Product(shape)
    ensures k < CoordCount(shape) ==> InShapeBox(Coord(shape, k), shape)
    ensures InShapeBox(x, shape) ==> Encode(shape, x) < CoordCount(shape) && Coord(shape, Encode(shape, x)) == x
  {
    assert Extents(shape) == shape;
    DigitsInRange(shape, k);
    if InShapeBox(x, shape) {
      DigitsEncode(shape, x);
    }
  }

  /** Coordinates are yielded once each, in strictly increasing lexicographic order. */
  lemma LexicographicOrder(shape: seq<nat>, k: nat, k': nat)
    requires k < k' < CoordCount(shape)
    ensures LexLess(Coord(shape, k), Coord(shape, k')) && Coord(shape, k) != Coord(shape, k')
  {
    DigitsMonotone(Extents(shape), k, k');
    DigitsInjective(Extents(shape), k, k');
  }

  /** The all-zero coordinate comes first, whatever the extents, even zero ones. */
  lemma FirstCoordIsZero(shape: seq<nat>)
    ensures Coord(shape, 0) == Zeros(|shape|) && CoordCount(shape) >= 1
  {
    DigitsZero(Extents(shape));
    ProductPositive(Extents(shape));
  }

  /** Over a 2x3 box: six coordinates, the fifth being (1,1). */
  lemma CoordExample()
    ensures CoordCount([2, 3]) == 6 && Coord([2, 3], 4) == [1, 1]
  {
    var e := Extents([2, 3]);
    assert e == [2, 3];
    assert e[1..] == [3] && e[1..][1..] == [];
    assert e[..1] == [2] && e[..1][..0] == [];
  }

  /* ---------- tile_iter and rest_iter, as the tests pin them down ---------- */

  /** How many whole tiles fit along each dimension (a remainder is ignored). */
  function WholeTiles(shape: seq<nat>, tile: seq<nat>): (q: seq<nat>)
    requires |shape| == |tile| && Positive(tile)
    ensures |q| == |shape|
  {
    seq(|shape|, d requires 0 <= d < |shape| => shape[d] / tile[d])
  }

  /** tile_iter: the starts of the whole tiles, row-major, the last dimension fastest; none
      when some dimension holds no whole tile. */
  function TileStarts(shape: seq<nat>, tile: seq<nat>): (starts: seq<seq<nat>>)
    requires |shape| == |tile| && Positive(tile)
    ensures |starts| == (if Positive(WholeTiles(shape, tile)) then Product(WholeTiles(shape, tile)) else 0)
  {
    var q := WholeTiles(shape, tile);
    if Positive(q) then seq(Product(q), k requires 0 <= k < Product(q) => Scale(Digits(q, k), tile))
    else []
  }

  /** Every start of tile_iter is a multiple of the tile extent whose whole tile fits in
      the shape. */
  lemma TileStartsFit(shape: seq<nat>, tile: seq<nat>, k: nat)
    requires |shape| == |tile| && Positive(tile) && k < |TileStarts(shape, tile)|
    ensures var s := TileStarts(shape, tile)[k];
      |s| == |shape| && forall d :: 0 <= d < |s| ==> s[d] + tile[d] <= shape[d] && s[d] % tile[d] == 0
  {
    var q := WholeTiles(shape, tile);
    var ds := Digits(q, k);
    DigitsInRange(q, k);
    var s := TileStarts(shape, tile)[k];
    assert s == Scale(ds, tile);
    forall d | 0 <= d < |s| ensures s[d] + tile[d] <= shape[d] && s[d] % tile[d] == 0 {
      MultipleFits(ds[d], tile[d], shape[d]);
    }
  }

  /** tile_iter yields no start twice. */
  lemma TileStartsDistinct(shape: seq<nat>, tile: seq<nat>, k: nat, k': nat)
    requires |shape| == |tile| && Positive(tile)
    requires k < k' < |TileStarts(shape, tile)|
    ensures TileStarts(shape, tile)[k] != TileStarts(shape, tile)[k']
  {
    var q := WholeTiles(shape, tile);
    var ds, ds' := Digits(q, k), Digits(q, k');
    DigitsInRange(q, k);
    DigitsInRange(q, k');
    DigitsInjective(q, k, k');
    var s, s' := TileStarts(shape, tile)[k], TileStarts(shape, tile)[k'];
    assert s == Scale(ds, tile) && s' == Scale(ds', tile);
    var d :| 0 <= d < |ds| && ds[d] != ds'[d];
    MultipleFits(ds[d], tile[d], shape[d]);
    MultipleFits(ds'[d], tile[d], shape[d]);
    assert s[d] != s'[d];
  }

  /** rest_iter: no start when the tile divides every extent exactly; otherwise a single
      start, the first index past the whole tiles in every dimension that has a remainder,
      and 0 in a dimension the tile divides exactly. */
  function RestStarts(shape: seq<nat>, tile: seq<nat>): (rests: seq<seq<nat>>)
    requires |shape| == |tile| && Positive(tile)
    ensures |rests| <= 1
    ensures |rests| == 1 <==> exists d :: 0 <= d < |shape| && shape[d] % tile[d] != 0
    ensures |rests| == 1 ==> |rests[0]| == |shape|
  {
    if forall d :: 0 <= d < |shape| ==> shape[d] % tile[d] == 0 then []
    else [seq(|shape|, d requires 0 <= d < |shape| => if shape[d] % tile[d] == 0 then 0 else (shape[d] / tile[d]) * tile[d])]
  }

  /** The remainder block starts where the remainder begins: its start plus the remainder is
      the extent. */
  lemma RestStartsRemainder(shape: seq<nat>, tile: seq<nat>, d: nat)
    requires |shape| == |tile| && Positive(tile) && d < |shape| && shape[d] % tile[d] != 0
    ensures RestStarts(shape, tile)[0][d] + shape[d] % tile[d] == shape[d]
  {
    DivMod(shape[d], tile[d]);
  }

  /** The mixed-radix digits of j over two dimensions (a, b): the quotient by b taken
      modulo a, then the remainder by b. */
  lemma DigitsPair(a: nat, b: nat, j: nat)
    requires a > 0 && b > 0
    ensures Digits([a, b], j) == [(j / b) % a, j % b]
  {
    var r := [a, b];
    assert r[..1] == [a] && r[..1][..0] == [];
  }

  /** 8x6 in 3x2 tiles: whole-tile starts (0,0) (0,2) (0,4) (3,0) (3,2) (3,4). */
  lemma TileStartsExample2D()
    ensures TileStarts([8, 6], [3, 2]) == [[0, 0], [0, 2], [0, 4], [3, 0], [3, 2], [3, 4]]
  {
    var q := WholeTiles([8, 6], [3, 2]);
    DivModUnique(8, 2, 2, 3);
    DivModUnique(6, 3, 0, 2);
    assert q == [2, 3];
    assert Product(q) == 6 by {
      assert q[1..] == [3] && q[1..][1..] == [];
    }
    var t := TileStarts([8, 6], [3, 2]);
    forall k | 0 <= k < 6
      ensures t[k] == [((k / 3) % 2) * 3, (k % 3) * 2]
    {
      DigitsPair(2, 3, k);
    }
  }

  /** 8x6 in 3x2 tiles: one remainder start, (6,0). */
  lemma RestStartsExample2D()
    ensures RestStarts([8, 6], [3, 2]) == [[6, 0]]
  {
    DivModUnique(8, 2, 2, 3);
    DivModUnique(6, 3, 0, 2);
    assert [8, 6][0] % [3, 2][0] != 0;
    var r := RestStarts([8, 6], [3, 2])[0];
    assert r[0] == 6 && r[1] == 0;
    assert r == [6, 0];
  }

  /** The mixed-radix digits of j over three dimensions (a, b, c). */
  lemma DigitsTriple(a: nat, b: nat, c: nat, j: nat)
    requires a > 0 && b > 0 && c > 0
    ensures Digits([a, b, c], j) == [((j / c) / b) % a, (j / c) % b, j % c]
  {
    var r := [a, b, c];
    assert r[..2] == [a, b];
    DigitsPair(a, b, j / c);
  }

  /** 4x6x8 in 2x3x4 tiles: eight starts from (0,0,0) to (2,3,4). */
  lemma TileStartsExample3D()
    ensures |TileStarts([4, 6, 8], [2, 3, 4])| == 8
    ensures TileStarts([4, 6, 8], [2, 3, 4])[0] == [0, 0, 0]
    ensures TileStarts([4, 6, 8], [2, 3, 4])[7] == [2, 3, 4]
  {
    var q := WholeTiles([4, 6, 8], [2, 3, 4]);
    DivModUnique(4, 2, 0, 2);
    DivModUnique(6, 2, 0, 3);
    DivModUnique(8, 2, 0, 4);
    assert q == [2, 2, 2];
    assert Product(q) == 8 by {
      assert q[1..] == [2, 2] && q[1..][1..] == [2] && q[1..][1..][1..] == [];
    }
    assert Positive(q);
    DigitsTriple(2, 2, 2, 0);
    DigitsTriple(2, 2, 2, 7);
    var t := TileStarts([4, 6, 8], [2, 3, 4]);
    assert t[0] == Scale([0, 0, 0], [2, 3, 4]);
    assert t[7] == Scale([1, 1, 1], [2, 3, 4]);
  }

  /** 4x6x8 in 3x4x5 tiles: the remainder starts at (3,4,5). */
  lemma RestStartsExample3D()
    ensures RestStarts([4, 6, 8], [3, 4, 5]) == [[3, 4, 5]]
  {
    DivModUnique(4, 1, 1, 3);
    DivModUnique(6, 1, 2, 4);
    DivModUnique(8, 1, 3, 5);
    assert [4, 6, 8][0] % [3, 4, 5][0] != 0;
    var r := RestStarts([4, 6, 8], [3, 4, 5])[0];
    assert r[0] == 3 && r[1] == 4 && r[2] == 5;
    assert r == [3, 4, 5];
  }
}
