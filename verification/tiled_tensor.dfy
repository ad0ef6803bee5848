/** Tiling a tensor. A tile iterator walks the starts of the tiles of a box row-major
    (last dimension fastest), stepping each dimension by the tile extent and clipping the
    tile's length at the box's edge; the tiles it yields are pairwise disjoint and cover the
    box. A tiled view pairs each tile with the subview of its base at the tile's start. */
module TiledTensor {
  import opened Options
  import opened Nested
  import opened Arith
  import opened Odometer
  import opened Layouts
  import opened LayoutAlgebra
  import opened Tensors

  /** A tile: its first index and its length along every dimension. */
  datatype Tile = Tile(start: seq<nat>, len: seq<nat>)

  /** What the iterator needs to terminate and stay in bounds: at least one dimension, a
      full extent for every tile dimension, and no zero tile extent. */
  predicate WellFormed(tile: seq<nat>, full: seq<nat>)
  {
    |tile| >= 1 && |full| >= |tile| && Positive(tile)
  }

  /** How many tile positions each dimension has. */
  function Grid(tile: seq<nat>, full: seq<nat>): (g: seq<nat>)
    requires WellFormed(tile, full)
    ensures |g| == |tile| && Positive(g)
  {
    Radii(full, tile, |tile|)
  }

  /** The number of tiles the iterator yields. */
  function TileCount(tile: seq<nat>, full: seq<nat>): (c: nat)
    requires WellFormed(tile, full)
    ensures c >= 1
  {
    ProductPositive(Grid(tile, full));
    Product(Grid(tile, full))
  }

  /** Scaled digits stay inside the box: below the full extent, or 0 when that is 0. */
  lemma ScaledInBound(tile: seq<nat>, full: seq<nat>, ds: seq<nat>)
    requires WellFormed(tile, full) && InRange(Grid(tile, full), ds)
    ensures forall d :: 0 <= d < |ds| ==>
      ds[d] * tile[d] <= full[d] && (full[d] > 0 ==> ds[d] * tile[d] < full[d])
  {
    forall d | 0 <= d < |ds|
      ensures ds[d] * tile[d] <= full[d] && (full[d] > 0 ==> ds[d] * tile[d] < full[d])
    {
      PosInBound(full[d], tile[d], ds[d]);
    }
  }

  /** Where the k-th tile starts: the mixed-radix digits of k scaled by the tile extents. */
  function TileStart(tile: seq<nat>, full: seq<nat>, k: nat): (s: seq<nat>)
    requires WellFormed(tile, full)
    ensures |s| == |tile|
    ensures forall d :: 0 <= d < |s| ==> s[d] <= full[d] && (full[d] > 0 ==> s[d] < full[d])
  {
    var ds := Digits(Grid(tile, full), k);
    DigitsInRange(Grid(tile, full), k);
    ScaledInBound(tile, full, ds);
    Scale(ds, tile)
  }

  /** The clipped lengths of a tile at `start`: the tile extent, cut short at the box's edge. */
  function TileLens(start: seq<nat>, tile: seq<nat>, full: seq<nat>): (len: seq<nat>)
    requires |start| <= |tile| && |start| <= |full|
    requires forall d :: 0 <= d < |start| ==> start[d] <= full[d]
    ensures |len| == |start|
    ensures forall d :: 0 <= d < |start| ==>
      len[d] <= tile[d] && start[d] + len[d] <= full[d] &&
      (len[d] == tile[d] || start[d] + len[d] == full[d])
  {
    seq(|start|, d requires 0 <= d < |start| => Min(tile[d], full[d] - start[d]))
  }

  /** The k-th tile the iterator yields. */
  function TileAt(tile: seq<nat>, full: seq<nat>, k: nat): Tile
    requires WellFormed(tile, full)
  {
    var s := TileStart(tile, full, k);
    Tile(s, TileLens(s, tile, full))
  }

  /* ---------- the iterator ---------- */

  /** The iterator's state after `count` tiles: the counter holds the start of the next
      tile, and is back at all zeros with `done` set once every tile has been yielded. */
  ghost predicate IterState(tile: seq<nat>, full: seq<nat>, count: nat, done: bool, current: seq<nat>)
  {
    WellFormed(tile, full) &&
    count <= TileCount(tile, full) &&
    (done <==> count == TileCount(tile, full)) &&
    current == (if done then Zeros(|tile|) else TileStart(tile, full, count))
  }

  /** The carry loop moves the start of tile j to the start of tile j + 1, and after the
      last tile wraps to all zeros and signals the end. */
  lemma TileStep(tile: seq<nat>, full: seq<nat>, j: nat)
    requires WellFormed(tile, full) && j < TileCount(tile, full)
    ensures var c := Carry(TileStart(tile, full, j), tile, full, |tile|);
      (c.1 <==> j + 1 == TileCount(tile, full)) &&
      c.0 == (if c.1 then Zeros(|tile|) else TileStart(tile, full, j + 1)) &&
      IterState(tile, full, j + 1, c.1, c.0)
  {
    CounterStep(tile, full, |tile|, j);
  }

  /** The per-dimension loop of next: each length is the tile extent, cut short by what
      remains of the box past the tile's start. */
  method ClipLens(start: seq<nat>, tile: seq<nat>, full: seq<nat>) returns (len: seq<nat>)
    requires |start| <= |tile| && |start| <= |full|
    requires forall d :: 0 <= d < |start| ==> start[d] <= full[d]
    ensures len == TileLens(start, tile, full)
  {
    len := [];
    for d := 0 to |start|
      invariant |len| == d
      invariant forall e :: 0 <= e < d ==> len[e] == Min(tile[e], full[e] - start[e])
    {
      var remaining := full[d] - start[d];
      len := len + [Min(tile[d], remaining)];
    }
  }

  class TileIter {
    const tileShape: seq<nat>
    const fullShape: seq<nat>
    var current: seq<nat>
    var done: bool
    /** How many tiles have been yielded so far. */
    ghost var count: nat

    /** The counter holds the start of the next tile, and is back at all zeros with `done`
        set once every tile has been yielded. */
    ghost predicate Valid()
      reads this
    {
      IterState(tileShape, fullShape, count, done, current)
    }

    /** TileIter::new: the counter starts at all zeros, nothing yielded yet. */
    constructor (tile: seq<nat>, full: seq<nat>)
      requires WellFormed(tile, full)
      ensures tileShape == tile && fullShape == full
      ensures current == Zeros(|tile|) && !done && count == 0
      ensures Valid()
    {
      tileShape := tile;
      fullShape := full;
      current := Zeros(|tile|);
      done := false;
      count := 0;
      DigitsZero(Grid(tile, full));
      assert Scale(Zeros(|tile|), tile) == Zeros(|tile|);
    }

    /** next: yields the tile at the counter, then advances the counter with the carry loop.
        After the last tile it keeps returning nothing. */
    method Next() returns (t: Option<Tile>)
      requires Valid()
      modifies this
      ensures Valid() && count <= TileCount(tileShape, fullShape) && (done <==> count == TileCount(tileShape, fullShape))
      ensures old(done) ==> t.None? && done && count == old(count) && current == old(current)
      ensures !old(done) ==> t == Some(TileAt(tileShape, fullShape, old(count))) && count == old(count) + 1
      ensures !old(done) ==> (current, done) == Carry(old(current), tileShape, fullShape, |tileShape|)
    {
      if done {
        return None;
      }
      var start := current;
      var len := ClipLens(start, tileShape, fullShape);
      Advance();
      TileStep(tileShape, fullShape, count);
      count := count + 1;
      t := Some(Tile(start, len));
    }

    /** The carry loop of next: the last dimension steps by its tile extent; a dimension that
        reaches its full extent goes back to 0 and carries left; a wrap of dimension 0 sets
        `done`. */
    method Advance()
      requires !done && |current| == |tileShape| <= |fullShape|
      modifies this
      ensures count == old(count)
      ensures (current, done) == Carry(old(current), tileShape, fullShape, |tileShape|)
    {
      ghost var target := Carry(current, tileShape, fullShape, |current|);
      var i := |current|;
      while i > 0
        invariant 0 <= i <= |tileShape| && |current| == |tileShape| && count == old(count)
        invariant done ==> i == 0 && (current, true) == target
        invariant !done ==> Carry(current, tileShape, fullShape, i) == target
      {
        ghost var before := current;
        i := i - 1;
        current := current[i := current[i] + tileShape[i]];
        if current[i] < fullShape[i] {
          break;
        }
        current := current[i := 0];
        assert current == before[i := 0];
        if i == 0 {
          done := true;
        }
      }
      assert (current, done) == target;
    }
  }

  /** tiles().collect() on a fresh iterator: exactly the tiles 0 .. TileCount-1, in order. */
  method AllTiles(tile: seq<nat>, full: seq<nat>) returns (tiles: seq<Tile>)
    requires WellFormed(tile, full)
    ensures |tiles| == TileCount(tile, full)
    ensures forall k :: 0 <= k < |tiles| ==> tiles[k] == TileAt(tile, full, k)
  {
    var it := new TileIter(tile, full);
    tiles := [];
    while true
      invariant it.Valid() && it.tileShape == tile && it.fullShape == full
      invariant it.count <= TileCount(tile, full) && (it.done <==> it.count == TileCount(tile, full))
      invariant |tiles| == it.count
      invariant FirstTiles(tiles, tile, full)
      decreases TileCount(tile, full) - it.count
    {
      var t := it.Next();
      if t.None? {
        break;
      }
      FirstTilesAppend(tiles, tile, full, t.value);
      tiles := tiles + [t.value];
    }
  }

  /** `tiles` are the first |tiles| tiles, in order. */
  predicate FirstTiles(tiles: seq<Tile>, tile: seq<nat>, full: seq<nat>)
    requires WellFormed(tile, full)
  {
    forall k :: 0 <= k < |tiles| ==> tiles[k] == TileAt(tile, full, k)
  }

  lemma FirstTilesAppend(tiles: seq<Tile>, tile: seq<nat>, full: seq<nat>, t: Tile)
    requires WellFormed(tile, full) && FirstTiles(tiles, tile, full) && t == TileAt(tile, full, |tiles|)
    ensures FirstTiles(tiles + [t], tile, full)
  {
  }

  /* ---------- the tiles partition the box ---------- */

  /** x lies inside the box [0, full[0]) x ... over the first n dimensions. */
  predicate InBox(x: seq<nat>, full: seq<nat>, n: nat)
    requires n <= |full|
  {
    |x| == n && forall d :: 0 <= d < n ==> x[d] < full[d]
  }

  /** x lies inside the tile. */
  predicate InTile(x: seq<nat>, t: Tile)
  {
    |x| == |t.start| == |t.len| && forall d :: 0 <= d < |x| ==> t.start[d] <= x[d] < t.start[d] + t.len[d]
  }

  /** The number of the tile that owns cell x: its tile coordinates x[d] / tile[d] read as a
      mixed-radix number. */
  function Owner(tile: seq<nat>, full: seq<nat>, x: seq<nat>): nat
    requires WellFormed(tile, full) && |x| == |tile|
  {
    Encode(Grid(tile, full), TileCoords(tile, full, x))
  }

  /** The tile coordinates of cell x: its coordinate in each dimension divided by the tile
      extent there. */
  function TileCoords(tile: seq<nat>, full: seq<nat>, x: seq<nat>): (q: seq<nat>)
    requires WellFormed(tile, full) && |x| == |tile|
    ensures |q| == |tile|
  {
    seq(|x|, d requires 0 <= d < |x| => x[d] / tile[d])
  }

  /** Every cell of the box lies in the tile of its owner, which is one of the yielded tiles. */
  lemma TileCovers(tile: seq<nat>, full: seq<nat>, x: seq<nat>)
    requires WellFormed(tile, full) && InBox(x, full, |tile|)
    ensures Owner(tile, full, x) < TileCount(tile, full)
    ensures InTile(x, TileAt(tile, full, Owner(tile, full, x)))
  {
    var n, g := |tile|, Grid(tile, full);
    var q := TileCoords(tile, full, x);
    forall d | 0 <= d < n
      ensures q[d] < g[d] && q[d] * tile[d] <= x[d] < q[d] * tile[d] + tile[d]
    {
      DivMod(x[d], tile[d]);
      RadixSpec(full[d], tile[d], q[d]);
    }
    DigitsEncode(g, q);
    var s := TileStart(tile, full, Owner(tile, full, x));
    assert s == Scale(q, tile);
  }

  /** A cell inside a yielded tile is inside the box, and that tile is the cell's owner: no
      cell lies in two tiles. */
  lemma TileOwned(tile: seq<nat>, full: seq<nat>, k: nat, x: seq<nat>)
    requires WellFormed(tile, full) && k < TileCount(tile, full)
    requires InTile(x, TileAt(tile, full, k))
    ensures InBox(x, full, |tile|) && Owner(tile, full, x) == k
  {
    TileCoordsAreDigits(tile, full, k, x);
    EncodeDigits(Grid(tile, full), k);
  }

  /** A cell inside the k-th tile is inside the box, and its tile coordinates are the digits
      of k. */
  lemma TileCoordsAreDigits(tile: seq<nat>, full: seq<nat>, k: nat, x: seq<nat>)
    requires WellFormed(tile, full) && k < TileCount(tile, full)
    requires InTile(x, TileAt(tile, full, k))
    ensures InBox(x, full, |tile|) && TileCoords(tile, full, x) == Digits(Grid(tile, full), k)
  {
    var q, ds := TileCoords(tile, full, x), Digits(Grid(tile, full), k);
    forall d | 0 <= d < |tile|
      ensures q[d] == ds[d] && x[d] < full[d]
    {
      TileQuotient(tile, full, k, x, d);
    }
  }

  /** One dimension of a cell inside the k-th tile: inside the box, and its quotient by the
      tile extent is that dimension's digit of k. */
  lemma TileQuotient(tile: seq<nat>, full: seq<nat>, k: nat, x: seq<nat>, d: nat)
    requires WellFormed(tile, full) && k < TileCount(tile, full)
    requires InTile(x, TileAt(tile, full, k)) && d < |tile|
    ensures TileCoords(tile, full, x)[d] == Digits(Grid(tile, full), k)[d] && x[d] < full[d]
  {
    var digit := Digits(Grid(tile, full), k)[d];
    var t := TileAt(tile, full, k);
    assert t.start[d] == digit * tile[d];
    OwnedDigit(x[d], digit, tile[d], t.len[d], full[d]);
  }

  /** One dimension of TileOwned: a coordinate inside the clipped tile that starts at digit
      times extent has that digit as its quotient, and is inside the box. */
  lemma OwnedDigit(x: nat, digit: nat, t: nat, len: nat, full: nat)
    requires t > 0 && len <= t && digit * t + len <= full
    requires digit * t <= x < digit * t + len
    ensures x / t == digit && x < full
  {
    DivModUnique(x, digit, x - digit * t, t);
  }

  /** Exact cover: a cell of the box lies in the k-th tile exactly when k is its owner. */
  lemma ExactCover(tile: seq<nat>, full: seq<nat>, k: nat, x: seq<nat>)
    requires WellFormed(tile, full) && k < TileCount(tile, full) && InBox(x, full, |tile|)
    ensures InTile(x, TileAt(tile, full, k)) <==> k == Owner(tile, full, x)
  {
    TileCovers(tile, full, x);
    if InTile(x, TileAt(tile, full, k)) {
      TileOwned(tile, full, k, x);
    }
  }

  /** Two yielded tiles that share a cell are the same tile. */
  lemma TilesDisjoint(tile: seq<nat>, full: seq<nat>, k: nat, k': nat, x: seq<nat>)
    requires WellFormed(tile, full) && k < TileCount(tile, full) && k' < TileCount(tile, full)
    requires InTile(x, TileAt(tile, full, k)) && InTile(x, TileAt(tile, full, k'))
    ensures k == k'
  {
    TileOwned(tile, full, k, x);
    TileOwned(tile, full, k', x);
  }

  /* ---------- examples ---------- */

  /** An 8x6 box in 3x4 tiles has 3 x 2 = 6 tiles; a 7x5 box in 4x3 tiles has 4, the last
      starting at (4,3) clipped to 3x2. */
  lemma TileCountExamples()
    ensures WellFormed([3, 4], [8, 6]) && TileCount([3, 4], [8, 6]) == 6
    ensures WellFormed([4, 3], [7, 5]) && TileCount([4, 3], [7, 5]) == 4
    ensures TileAt([4, 3], [7, 5], 3) == Tile([4, 3], [3, 2])
  {
    DivModUnique(10, 3, 1, 3);
    DivModUnique(9, 2, 1, 4);
    var g1 := Grid([3, 4], [8, 6]);
    assert g1 == [3, 2];
    assert g1[1..] == [2] && g1[1..][1..] == [];
    DivModUnique(10, 2, 2, 4);
    DivModUnique(7, 2, 1, 3);
    var g2 := Grid([4, 3], [7, 5]);
    assert g2 == [2, 2];
    assert g2[1..] == [2] && g2[1..][1..] == [];
    DivModUnique(3, 1, 1, 2);
    DivModUnique(1, 0, 1, 2);
    assert g2[..1] == [2] && g2[..1][..0] == [];
    assert Digits(g2, 3) == [1, 1];
  }

  /** A tile as large as the whole box: exactly one tile, at the origin, with the box's extents. */
  lemma WholeTile(shape: seq<nat>)
    requires WellFormed(shape, shape)
    ensures TileCount(shape, shape) == 1
    ensures TileAt(shape, shape, 0) == Tile(Zeros(|shape|), shape)
  {
    var g := Grid(shape, shape);
    forall d | 0 <= d < |shape| ensures g[d] == 1 {
      DivModUnique(shape[d] + shape[d] - 1, 1, shape[d] - 1, shape[d]);
    }
    assert g == seq(|shape|, d => 1);
    UnitProduct(g);
    DigitsZero(g);
    assert TileStart(shape, shape, 0) == Zeros(|shape|);
  }

  lemma {:induction false} UnitProduct(g: seq<nat>)
    requires forall d :: 0 <= d < |g| ==> g[d] == 1
    ensures Product(g) == 1
  {
    if g != [] {
      UnitProduct(g[1..]);
    }
  }

  /* ---------- tiled views ---------- */

  class TiledView {
    const base: View
    const tileLayout: Layout
    const iter: TileIter

    /** The base view's stride is one leaf with one entry per tile dimension, so every tile
        start addresses the base. */
    ghost predicate Valid()
      reads this, iter
    {
      iter.Valid() && base.layout.stride.Int? && |base.layout.stride.vals| == |iter.tileShape|
    }

    constructor (b: View, tiler: Layout, it: TileIter)
      ensures base == b && tileLayout == tiler && iter == it
    {
      base := b;
      tileLayout := tiler;
      iter := it;
    }

    /** tiles().next(): the next tile paired with the base's subview at the tile's start and
        of the tile's clipped extents. */
    method NextTile() returns (r: Option<(Tile, View)>)
      requires Valid()
      modifies iter
      ensures Valid()
      ensures old(iter.done) ==> r.None? && iter.count == old(iter.count)
      ensures !old(iter.done) ==> (iter.count == old(iter.count) + 1 && r.Some? &&
                                   r.value.0 == TileAt(iter.tileShape, iter.fullShape, old(iter.count)) &&
                                   r.value.1 == Subview(base, Int(r.value.0.start), Int(r.value.0.len)))
    {
      var t := iter.Next();
      if t.None? {
        return None;
      }
      var tile := t.value;
      var sub := Subview(base, Int(tile.start), Int(tile.len));
      return Some((tile, sub));
    }
  }

  /** TiledTensorView::new: divides the base's layout by the tiler with flat_divide, takes
      the first flat_len(tiler) extents as the tile shape, and iterates over the base's own
      flattened extents. flat_divide fails exactly when a tile extent is zero. */
  method NewTiledView(base: View, tiler: Layout) returns (r: Option<TiledView>)
    requires Congruent(base.layout.shape, tiler.shape) && FlatLen(tiler.shape) >= 1
    requires base.layout.stride.Int? && |base.layout.stride.vals| == FlatLen(base.layout.shape)
    ensures r.None? <==> !PositiveTile(tiler.shape)
    ensures r.Some? ==> (fresh(r.value) && fresh(r.value.iter) && r.value.Valid() &&
                         r.value.base == base && r.value.tileLayout == tiler &&
                         r.value.iter.tileShape == Flatten(tiler.shape) &&
                         r.value.iter.fullShape == Flatten(base.layout.shape) &&
                         r.value.iter.count == 0 && !r.value.iter.done)
  {
    ZippedDivideDefined(base.layout, tiler);
    var flat := FlatDivide(base.layout, tiler);
    if flat.None? {
      return None;
    }
    FlatDivideLeaves(base.layout, tiler);
    var v := flat.value.shape.vals;
    var t := FlatLen(tiler.shape);
    var tileDims := v[..t];
    var it := new TileIter(tileDims, Flatten(base.layout.shape));
    var tv := new TiledView(base, tiler, it);
    return Some(tv);
  }

  /* ---------- writing through the tiles ---------- */

  /** Row and column of row-major index idx in a matrix with n columns. */
  function Cell(idx: nat, n: nat): (c: seq<nat>)
    requires n > 0
    ensures |c| == 2 && c[0] * n + c[1] == idx && c[1] < n
  {
    DivMod(idx, n);
    [idx / n, idx % n]
  }

  /** Every index of an m x n matrix has its cell inside the m x n box. */
  lemma CellInBox(idx: nat, m: nat, n: nat)
    requires n > 0 && idx < m * n
    ensures InBox(Cell(idx, n), [m, n], 2)
  {
    DivBelow(idx, m, n);
  }

  /** The offset of (a, b) under the row-major strides (n, 1). */
  lemma PairDot(a: nat, b: nat, n: nat)
    ensures FlatDot([a, b], [n, 1]) == a * n + b
  {
    assert [a, b][1..] == [b] && [n, 1][1..] == [1];
    assert [b][1..] == [] && [1][1..] == [];
    assert FlatDot([b], [1]) == b * 1 + FlatDot([], []);
  }

  /** The row-major strides of an m x n leaf are (n, 1). */
  lemma RowMajorMatrix(m: nat, n: nat)
    ensures RowMajor(Int([m, n])) == Int([n, 1])
  {
    assert [m, n][1..] == [n] && [n][1..] == [] && [m, n][2..] == [];
    assert Product([n]) == n * Product([]);
    assert RowMajorFlat([m, n]) == [n, 1];
  }

  /** Element (i, j) of tile t of an m x n matrix sits at the row-major index of
      start + (i, j), an index of the matrix whose cell is in t. */
  lemma TileWrite(m: nat, n: nat, t: Tile, i: nat, j: nat)
    requires n > 0 && |t.start| == |t.len| == 2
    requires t.start[0] + t.len[0] <= m && t.start[1] + t.len[1] <= n
    requires i < t.len[0] && j < t.len[1]
    ensures var a := (t.start[0] * n + t.start[1]) + (i * n + j);
      a < m * n && Cell(a, n) == [t.start[0] + i, t.start[1] + j] && InTile(Cell(a, n), t)
  {
    var r, c := t.start[0] + i, t.start[1] + j;
    ShiftOffset(t.start[0], t.start[1], i, j, n);
    MatrixIndex(r, c, m, n);
  }

  /** The cells of tile t written before element (i, j), row by row. */
  predicate WrittenBefore(c: seq<nat>, t: Tile, i: nat, j: nat)
  {
    |c| == 2 && InTile(c, t) && (c[0] < t.start[0] + i || (c[0] == t.start[0] + i && c[1] < t.start[1] + j))
  }

  /** The two loops over one tile: through the tile's subview, element (i, j) receives the
      row-major index start + (i, j) of the m x n matrix. Afterwards every cell of the tile
      holds its own index, and every other element is unchanged. */
  method FillTile(buf: array<nat>, m: nat, n: nat, t: Tile, sub: View)
    requires buf.Length == m * n && n > 0 && |t.start| == |t.len| == 2
    requires t.start[0] + t.len[0] <= m && t.start[1] + t.len[1] <= n
    requires sub.offset == t.start[0] * n + t.start[1] && sub.layout.stride == Int([n, 1])
    modifies buf
    ensures forall idx :: 0 <= idx < buf.Length ==>
      buf[idx] == (if InTile(Cell(idx, n), t) then idx else old(buf[idx]))
  {
    var tileOffset := t.start[0] * n + t.start[1];
    for i := 0 to t.len[0]
      invariant forall idx :: 0 <= idx < buf.Length ==>
        buf[idx] == (if WrittenBefore(Cell(idx, n), t, i, 0) then idx else old(buf[idx]))
    {
      for j := 0 to t.len[1]
        invariant forall idx :: 0 <= idx < buf.Length ==>
          buf[idx] == (if WrittenBefore(Cell(idx, n), t, i, j) then idx else old(buf[idx]))
      {
        TileWrite(m, n, t, i, j);
        PairDot(i, j, n);
        Set(buf, sub, Int([i, j]), tileOffset + (i * n + j));
      }
    }
  }

  /** tiled_mutation_updates_base_tensor: over an m x n row-major tensor, every tile writes,
      through its own subview, the global row-major index of each of its elements; together
      the tiles leave every element of the buffer holding its own index. */
  method FillThroughTiles(buf: array<nat>, m: nat, n: nat, tile: seq<nat>)
    requires buf.Length == m * n && |tile| == 2 && Positive(tile)
    modifies buf
    ensures forall idx :: 0 <= idx < buf.Length ==> buf[idx] == idx
  {
    if m == 0 || n == 0 {
      return;
    }
    ghost var full := [m, n];
    RowMajorMatrix(m, n);
    var base := View(0, RowMajorLayout(Int([m, n])));
    var tiler := RowMajorLayout(Int(tile));
    var r := NewTiledView(base, tiler);
    var tv := r.value;
    while true
      invariant tv.Valid() && tv.iter.tileShape == tile && tv.iter.fullShape == full && tv.base == base
      invariant fresh(tv.iter)
      invariant Filled(buf[..], tile, full, tv.iter.count)
      decreases TileCount(tile, full) - tv.iter.count
    {
      ghost var k := tv.iter.count;
      ghost var before := buf[..];
      var next := tv.NextTile();
      if next.None? {
        break;
      }
      var t, sub := next.value.0, next.value.1;
      assert t == TileAt(tile, full, k);
      assert t.start == [t.start[0], t.start[1]];
      PairDot(t.start[0], t.start[1], n);
      assert sub.offset == t.start[0] * n + t.start[1];
      FillTile(buf, m, n, t, sub);
      FilledStep(before, buf[..], tile, m, n, k);
    }
    FilledAll(buf[..], tile, m, n);
  }

  /** Every cell whose owner is below count holds its own index. */
  ghost predicate Filled(s: seq<nat>, tile: seq<nat>, full: seq<nat>, count: nat)
  {
    |full| == 2 && full[1] > 0 && WellFormed(tile, full) && |tile| == 2 &&
    forall idx :: 0 <= idx < |s| && Owner(tile, full, Cell(idx, full[1])) < count ==> s[idx] == idx
  }

  /** Filling the k-th tile extends Filled from the first k tiles to the first k + 1. */
  lemma FilledStep(before: seq<nat>, after: seq<nat>, tile: seq<nat>, m: nat, n: nat, k: nat)
    requires n > 0 && |before| == |after| == m * n && WellFormed(tile, [m, n])
    requires Filled(before, tile, [m, n], k) && k < TileCount(tile, [m, n])
    requires forall idx :: 0 <= idx < |after| ==>
      after[idx] == (if InTile(Cell(idx, n), TileAt(tile, [m, n], k)) then idx else before[idx])
    ensures Filled(after, tile, [m, n], k + 1)
  {
    var full := [m, n];
    forall idx | 0 <= idx < |after| && Owner(tile, full, Cell(idx, n)) < k + 1
      ensures after[idx] == idx
    {
      CellInBox(idx, m, n);
      ExactCover(tile, full, k, Cell(idx, n));
    }
  }

  /** Once every tile is filled, every cell holds its own index. */
  lemma FilledAll(s: seq<nat>, tile: seq<nat>, m: nat, n: nat)
    requires n > 0 && |s| == m * n && WellFormed(tile, [m, n])
    requires Filled(s, tile, [m, n], TileCount(tile, [m, n]))
    ensures forall idx :: 0 <= idx < |s| ==> s[idx] == idx
  {
    forall idx | 0 <= idx < |s|
      ensures s[idx] == idx
    {
      CellInBox(idx, m, n);
      TileCovers(tile, [m, n], Cell(idx, n));
    }
  }
}
