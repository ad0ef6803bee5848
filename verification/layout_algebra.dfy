/** The layout algebra: elementwise helpers on shape trees and the four ways of dividing
    a layout's shape by a tiler's shape. Every divide discards the input strides and wraps
    its result shape with a fresh row-major stride. A leaf/branch mismatch, which panics
    in the library, is the `None` result here. */
module LayoutAlgebra {
  import opened Options
  import opened Nested
  import opened Layouts
  import Odometer

  function MinLen(a: nat, b: nat): nat
  {
    if a <= b then a else b
  }

  /** Somewhere along the zip of l and t a leaf meets a branch: the case in which the
      recursions of logical_divide and zipped_divide panic with a shape mismatch. */
  predicate ZipMismatch(l: Tuple, t: Tuple)
  {
    if l.Int? then t.Tup?
    else if t.Int? then true
    else exists i :: 0 <= i < |l.kids| && i < |t.kids| && ZipMismatch(l.kids[i], t.kids[i])
  }

  /* ---------- subtract_tuples ---------- */

  /** What subtract_tuples demands so that no `x - y` underflows, wherever it gets to subtract. */
  predicate SubtractFits(a: Tuple, b: Tuple)
  {
    if a.Int? && b.Int? then
      |a.vals| == |b.vals| ==> forall k :: 0 <= k < |a.vals| ==> a.vals[k] >= b.vals[k]
    else if a.Tup? && b.Tup? then
      |a.kids| == |b.kids| ==> forall i :: 0 <= i < |a.kids| ==> SubtractFits(a.kids[i], b.kids[i])
    else true
  }

  function SubFlat(a: seq<nat>, b: seq<nat>): (r: seq<nat>)
    requires |a| == |b| && forall k :: 0 <= k < |a| ==> a[k] >= b[k]
    ensures |r| == |a| && forall k :: 0 <= k < |r| ==> r[k] + b[k] == a[k]
  {
    if a == [] then [] else [a[0] - b[0]] + SubFlat(a[1..], b[1..])
  }

  /** Elementwise difference of two trees; `None` when their lengths or leaf/branch
      structure differ at any level. */
  function Subtract(a: Tuple, b: Tuple): (r: Option<Tuple>)
    requires SubtractFits(a, b)
    ensures r.Some? <==> Congruent(a, b)
    ensures r.Some? ==> Congruent(r.value, a)
    decreases a, 1
  {
    if a.Int? && b.Int? then
      if |a.vals| != |b.vals| then None else Some(Int(SubFlat(a.vals, b.vals)))
    else if a.Tup? && b.Tup? then
      if |a.kids| != |b.kids| then None
      else
        match SubtractKids(a.kids, b.kids)
        case None => None
        case Some(ks) => Some(Tup(ks))
    else None
  }

  function SubtractKids(a: seq<Tuple>, b: seq<Tuple>): (r: Option<seq<Tuple>>)
    requires |a| == |b| && forall i :: 0 <= i < |a| ==> SubtractFits(a[i], b[i])
    ensures r.Some? <==> CongruentKids(a, b)
    ensures r.Some? ==> CongruentKids(r.value, a)
    decreases a, 0
  {
    if a == [] then Some([])
    else
      match Subtract(a[0], b[0])
      case None => None
      case Some(h) =>
        match SubtractKids(a[1..], b[1..])
        case None => None
        case Some(t) =>
          assert forall i :: 1 <= i < |a| ==> a[1..][i - 1] == a[i] && b[1..][i - 1] == b[i];
          Some([h] + t)
  }

  /** Subtraction undoes addition: adding b back to a - b gives a. */
  lemma {:induction false} SubtractThenAdd(a: Tuple, b: Tuple)
    requires SubtractFits(a, b) && Congruent(a, b)
    ensures var d := Subtract(a, b).value; Congruent(d, b) && Add(d, b) == a
    decreases a, 1
  {
    var d := Subtract(a, b).value;
    CongruentTransitive(d, a, b);
    if a.Tup? {
      SubtractKidsThenAdd(a.kids, b.kids);
    }
  }

  lemma {:induction false} SubtractKidsThenAdd(a: seq<Tuple>, b: seq<Tuple>)
    requires |a| == |b| && forall i :: 0 <= i < |a| ==> SubtractFits(a[i], b[i])
    requires CongruentKids(a, b)
    ensures var d := SubtractKids(a, b).value; CongruentKids(d, b) && AddKids(d, b) == a
    decreases a, 0
  {
    if a != [] {
      SubtractThenAdd(a[0], b[0]);
      SubtractKidsThenAdd(a[1..], b[1..]);
      SubtractKidsCons(a, b);
      AddKidsCons(Subtract(a[0], b[0]).value, SubtractKids(a[1..], b[1..]).value, b, a);
    }
  }

  /** Children that add up to a one by one, the first and then the rest. */
  lemma AddKidsCons(h: Tuple, t: seq<Tuple>, b: seq<Tuple>, a: seq<Tuple>)
    requires |a| == |b| == |t| + 1
    requires Congruent(h, b[0]) && Add(h, b[0]) == a[0]
    requires CongruentKids(t, b[1..]) && AddKids(t, b[1..]) == a[1..]
    ensures CongruentKids([h] + t, b) && AddKids([h] + t, b) == a
  {
    var d, b', s := [h] + t, b[1..], AddKids(t, b[1..]);
    forall i | 0 < i < |a|
      ensures d[i] == t[i - 1] && b[i] == b'[i - 1] && a[i] == s[i - 1]
    {
    }
    forall i | 0 < i < |a|
      ensures Congruent(d[i], b[i])
    {
    }
    forall i | 0 < i < |a|
      ensures Add(d[i], b[i]) == a[i]
    {
      var j := i - 1;
      assert s[j] == Add(t[j], b'[j]);
    }
    assert AddKids(d, b) == a;
  }

  /** A successful elementwise difference of children is the first child's difference
      followed by the difference of the rest. */
  lemma SubtractKidsCons(a: seq<Tuple>, b: seq<Tuple>)
    requires |a| == |b| && forall i :: 0 <= i < |a| ==> SubtractFits(a[i], b[i])
    requires CongruentKids(a, b) && a != []
    ensures forall i :: 0 <= i < |a| - 1 ==> SubtractFits(a[1..][i], b[1..][i])
    ensures SubtractKids(a, b).value == [Subtract(a[0], b[0]).value] + SubtractKids(a[1..], b[1..]).value
  {
    assert forall i :: 0 <= i < |a| - 1 ==> a[1..][i] == a[i + 1] && b[1..][i] == b[i + 1];
  }

  /* ---------- take_tuple / skip_tuple ---------- */

  /** The first n top-level elements of a tree (all of them when there are fewer). */
  function TakeTuple(a: Tuple, n: nat): (r: Tuple)
    ensures r.Int? == a.Int?
    ensures r.Int? ==> r.vals == a.vals[..MinLen(n, |a.vals|)]
    ensures r.Tup? ==> r.kids == a.kids[..MinLen(n, |a.kids|)]
  {
    match a
    case Int(v) => Int(if n <= |v| then v[..n] else v)
    case Tup(k) => Tup(if n <= |k| then k[..n] else k)
  }

  /** A tree without its first n top-level elements (empty when there are fewer). */
  function SkipTuple(a: Tuple, n: nat): (r: Tuple)
    ensures r.Int? == a.Int?
    ensures r.Int? ==> r.vals == a.vals[MinLen(n, |a.vals|)..]
    ensures r.Tup? ==> r.kids == a.kids[MinLen(n, |a.kids|)..]
  {
    match a
    case Int(v) => Int(if n <= |v| then v[n..] else [])
    case Tup(k) => Tup(if n <= |k| then k[n..] else [])
  }

  /** Joins two trees of the same kind at the top level. */
  function Concat(a: Tuple, b: Tuple): Option<Tuple>
  {
    if a.Int? && b.Int? then Some(Int(a.vals + b.vals))
    else if a.Tup? && b.Tup? then Some(Tup(a.kids + b.kids))
    else None
  }

  /** take and skip split a tree: joining the two parts gives it back. */
  lemma TakeSkip(a: Tuple, n: nat)
    ensures Concat(TakeTuple(a, n), SkipTuple(a, n)) == Some(a)
  {
    match a
    case Int(v) =>
      var m := MinLen(n, |v|);
      assert v[..m] + v[m..] == v;
    case Tup(k) =>
      var m := MinLen(n, |k|);
      assert k[..m] + k[m..] == k;
  }

  /* ---------- logical_divide ---------- */

  /** What logical_divide demands so that no `l - t` underflows: along the zip, every tile
      extent is at most the extent it divides. */
  predicate TileFits(l: Tuple, t: Tuple)
  {
    if l.Int? && t.Int? then
      forall k :: 0 <= k < |l.vals| && k < |t.vals| ==> t.vals[k] <= l.vals[k]
    else if l.Tup? && t.Tup? then
      forall i :: 0 <= i < |l.kids| && i < |t.kids| ==> TileFits(l.kids[i], t.kids[i])
    else true
  }

  /** One leaf pair (l, t) becomes the two-element leaf (t, l - t), for each pair of the zip. */
  function DivideLeaves(l: seq<nat>, t: seq<nat>): (r: seq<Tuple>)
    requires forall k :: 0 <= k < |l| && k < |t| ==> t[k] <= l[k]
    ensures |r| == MinLen(|l|, |t|)
  {
    seq(MinLen(|l|, |t|), k requires 0 <= k < MinLen(|l|, |t|) => Int([t[k], l[k] - t[k]]))
  }

  /** The leaf-level divide is the first pair's leaf followed by the divide of the rest. */
  lemma DivideLeavesCons(l: seq<nat>, t: seq<nat>)
    requires |l| == |t| && l != [] && forall k :: 0 <= k < |l| ==> t[k] <= l[k]
    ensures DivideLeaves(l, t) == [Int([t[0], l[0] - t[0]])] + DivideLeaves(l[1..], t[1..])
  {
    var d, rest := DivideLeaves(l, t), DivideLeaves(l[1..], t[1..]);
    forall k | 0 <= k < |rest| ensures d[k + 1] == rest[k] {
      assert l[1..][k] == l[k + 1] && t[1..][k] == t[k + 1];
    }
  }

  function LogicalDivideShape(l: Tuple, t: Tuple): Option<Tuple>
    requires TileFits(l, t)
    decreases l, 1
  {
    if l.Int? && t.Int? then Some(Tup(DivideLeaves(l.vals, t.vals)))
    else if l.Tup? && t.Tup? then
      match LogicalDivideKids(l.kids, t.kids)
      case None => None
      case Some(ks) => Some(Tup(ks))
    else None
  }

  function LogicalDivideKids(l: seq<Tuple>, t: seq<Tuple>): (r: Option<seq<Tuple>>)
    requires forall i :: 0 <= i < |l| && i < |t| ==> TileFits(l[i], t[i])
    ensures r.Some? ==> |r.value| == MinLen(|l|, |t|)
    decreases l, 0
  {
    if l == [] || t == [] then Some([])
    else
      match LogicalDivideShape(l[0], t[0])
      case None => None
      case Some(h) =>
        match LogicalDivideKids(l[1..], t[1..])
        case None => None
        case Some(rest) => Some([h] + rest)
  }

  /** logical_divide: ((TileM,RestM),(TileN,RestN),...) with a row-major stride. */
  function LogicalDivide(layout: Layout, tiler: Layout): (r: Option<Layout>)
    requires TileFits(layout.shape, tiler.shape)
    ensures r.Some? ==> r.value == RowMajorLayout(r.value.shape)
  {
    match LogicalDivideShape(layout.shape, tiler.shape)
    case None => None
    case Some(s) => Some(RowMajorLayout(s))
  }

  /** fd alternates the entries of ft with what is left of the matching entries of fl. */
  predicate Interleaved(fd: seq<nat>, fl: seq<nat>, ft: seq<nat>)
  {
    |fd| == 2 * |fl| && |fl| == |ft| &&
    forall k :: 0 <= k < |fl| ==> fd[2 * k] == ft[k] && fd[2 * k] + fd[2 * k + 1] == fl[k]
  }

  /** Leaves of the leaf-level divide: t0, l0 - t0, t1, l1 - t1, ... */
  lemma {:induction false} DivideLeavesFlatten(l: seq<nat>, t: seq<nat>)
    requires |l| == |t| && forall k :: 0 <= k < |l| ==> t[k] <= l[k]
    ensures Interleaved(FlattenKids(DivideLeaves(l, t)), l, t)
  {
    if l != [] {
      DivideLeavesFlatten(l[1..], t[1..]);
      var rest := DivideLeaves(l[1..], t[1..]);
      var h, fh := Int([t[0], l[0] - t[0]]), [t[0], l[0] - t[0]];
      DivideLeavesCons(l, t);
      assert ([h] + rest)[1..] == rest;
      assert FlattenKids([h] + rest) == fh + FlattenKids(rest);
      assert l == [l[0]] + l[1..] && t == [t[0]] + t[1..];
      InterleavedAppend(fh, FlattenKids(rest), [l[0]], l[1..], [t[0]], t[1..]);
    }
  }

  /** On congruent trees logical_divide succeeds, and its leaves alternate tile extent and
      remaining extent, the two summing to the original extent. */
  lemma {:induction false} LogicalDivideLeaves(l: Tuple, t: Tuple)
    requires Congruent(l, t) && TileFits(l, t)
    ensures var d := LogicalDivideShape(l, t);
      d.Some? && Interleaved(Flatten(d.value), Flatten(l), Flatten(t))
    decreases l, 1
  {
    CongruentFlatLen(l, t);
    if l.Int? {
      DivideLeavesFlatten(l.vals, t.vals);
    } else {
      LogicalDivideKidsLeaves(l.kids, t.kids);
    }
  }

  lemma {:induction false} LogicalDivideKidsLeaves(l: seq<Tuple>, t: seq<Tuple>)
    requires CongruentKids(l, t) && forall i :: 0 <= i < |l| ==> TileFits(l[i], t[i])
    ensures var d := LogicalDivideKids(l, t);
      d.Some? && Interleaved(FlattenKids(d.value), FlattenKids(l), FlattenKids(t))
    decreases l, 0
  {
    CongruentKidsFlatLen(l, t);
    if l != [] {
      LogicalDivideLeaves(l[0], t[0]);
      LogicalDivideKidsLeaves(l[1..], t[1..]);
      var h := LogicalDivideShape(l[0], t[0]).value;
      var rest := LogicalDivideKids(l[1..], t[1..]).value;
      var d := [h] + rest;
      assert d[1..] == rest;
      assert FlattenKids(d) == Flatten(h) + FlattenKids(rest);
      assert FlattenKids(l) == Flatten(l[0]) + FlattenKids(l[1..]);
      assert FlattenKids(t) == Flatten(t[0]) + FlattenKids(t[1..]);
      InterleavedAppend(Flatten(h), FlattenKids(rest), Flatten(l[0]), FlattenKids(l[1..]), Flatten(t[0]), FlattenKids(t[1..]));
    }
  }

  lemma InterleavedAppend(fh: seq<nat>, fr: seq<nat>, fl0: seq<nat>, flr: seq<nat>, ft0: seq<nat>, ftr: seq<nat>)
    requires Interleaved(fh, fl0, ft0) && Interleaved(fr, flr, ftr)
    ensures Interleaved(fh + fr, fl0 + flr, ft0 + ftr)
  {
    var fd, fl, ft := fh + fr, fl0 + flr, ft0 + ftr;
    var n := |fl0|;
    forall k | 0 <= k < |fl| ensures fd[2 * k] == ft[k] && fd[2 * k] + fd[2 * k + 1] == fl[k] {
      if k < n {
        assert fd[2 * k] == fh[2 * k] && fd[2 * k + 1] == fh[2 * k + 1];
      } else {
        var j := k - n;
        assert fd[2 * k] == fr[2 * j] && fd[2 * k + 1] == fr[2 * j + 1];
        assert fl[k] == flr[j] && ft[k] == ftr[j];
      }
    }
  }

  /** logical_divide fails exactly when a leaf meets a branch somewhere along the zip; extra
      children or extents on either side are dropped, never refused. */
  lemma {:induction false} LogicalDivideMismatch(l: Tuple, t: Tuple)
    requires TileFits(l, t)
    ensures LogicalDivideShape(l, t).None? <==> ZipMismatch(l, t)
    decreases l, 1
  {
    if l.Tup? && t.Tup? {
      LogicalDivideKidsMismatch(l.kids, t.kids);
    }
  }

  lemma {:induction false} LogicalDivideKidsMismatch(l: seq<Tuple>, t: seq<Tuple>)
    requires forall i :: 0 <= i < |l| && i < |t| ==> TileFits(l[i], t[i])
    ensures LogicalDivideKids(l, t).None? <==> exists i :: 0 <= i < |l| && i < |t| && ZipMismatch(l[i], t[i])
    decreases l, 0
  {
    if l != [] && t != [] {
      LogicalDivideMismatch(l[0], t[0]);
      LogicalDivideKidsMismatch(l[1..], t[1..]);
      if LogicalDivideKids(l, t).None? && !ZipMismatch(l[0], t[0]) {
        var j :| 0 <= j < |l[1..]| && j < |t[1..]| && ZipMismatch(l[1..][j], t[1..][j]);
        assert ZipMismatch(l[j + 1], t[j + 1]);
      }
      if i :| 0 <= i < |l| && i < |t| && ZipMismatch(l[i], t[i]) {
        if i > 0 {
          assert ZipMismatch(l[1..][i - 1], t[1..][i - 1]);
        }
      }
    }
  }

  /** The top-level form: logical_divide of two layouts is refused exactly on a leaf/branch
      mismatch along the zip of their shapes. */
  lemma LogicalDivideRefused(layout: Layout, tiler: Layout)
    requires TileFits(layout.shape, tiler.shape)
    ensures LogicalDivide(layout, tiler).None? <==> ZipMismatch(layout.shape, tiler.shape)
  {
    LogicalDivideMismatch(layout.shape, tiler.shape);
  }

  /** The 8x6 layout divided by the 2x3 tiler has shape ((2,6),(3,3)). */
  lemma LogicalDivideExample()
    ensures var r := LogicalDivide(RowMajorLayout(Tup([Int([8]), Int([6])])), RowMajorLayout(Tup([Int([2]), Int([3])])));
      r.Some? && r.value.shape == Tup([Tup([Int([2, 6])]), Tup([Int([3, 3])])])
  {
    assert DivideLeaves([8], [2]) == [Int([2, 6])];
    assert DivideLeaves([6], [3]) == [Int([3, 3])];
  }

  /* ---------- zipped_divide ---------- */

  function Quotients(l: seq<nat>, t: seq<nat>): (r: Option<seq<nat>>)
    ensures r.Some? ==> |r.value| == MinLen(|l|, |t|)
    ensures r.Some? ==> forall k :: 0 <= k < |r.value| ==> t[k] > 0 && r.value[k] == l[k] / t[k]
    ensures r.None? <==> exists k :: 0 <= k < |l| && k < |t| && t[k] == 0
  {
    if l == [] || t == [] then Some([])
    else if t[0] == 0 then None
    else
      match Quotients(l[1..], t[1..])
      case None =>
        var k :| 0 <= k < |l[1..]| && k < |t[1..]| && t[1..][k] == 0;
        assert t[k + 1] == 0;
        None
      case Some(q) =>
        Some([l[0] / t[0]] + q)
  }

  lemma QuotientsSingle(a: nat, b: nat)
    requires b > 0
    ensures Quotients([a], [b]) == Some([a / b])
  {
    assert [a][1..] == [] && [b][1..] == [];
    assert [a / b] + [] == [a / b];
  }

  /** The (tile, rest) pair of zipped_divide: at a leaf the tile is the tiler's leaf verbatim
      and the rest the zipped quotients; at a branch both are collected over the zipped
      children. A zero tile extent or a leaf/branch mismatch fails. */
  function ZippedParts(l: Tuple, t: Tuple): Option<(Tuple, Tuple)>
    decreases l, 1
  {
    if l.Int? && t.Int? then
      match Quotients(l.vals, t.vals)
      case None => None
      case Some(q) => Some((Int(t.vals), Int(q)))
    else if l.Tup? && t.Tup? then
      match ZippedKids(l.kids, t.kids)
      case None => None
      case Some(p) => Some((Tup(p.0), Tup(p.1)))
    else None
  }

  function ZippedKids(l: seq<Tuple>, t: seq<Tuple>): (r: Option<(seq<Tuple>, seq<Tuple>)>)
    ensures r.Some? ==> |r.value.0| == |r.value.1| == MinLen(|l|, |t|)
    decreases l, 0
  {
    if l == [] || t == [] then Some(([], []))
    else
      match ZippedParts(l[0], t[0])
      case None => None
      case Some(h) =>
        match ZippedKids(l[1..], t[1..])
        case None => None
        case Some(rest) => Some(([h.0] + rest.0, [h.1] + rest.1))
  }

  /** zipped_divide: ((TileM,TileN,...),(RestM,RestN,...)) with a row-major stride. */
  function ZippedDivide(layout: Layout, tiler: Layout): (r: Option<Layout>)
    ensures r.Some? ==> r.value == RowMajorLayout(r.value.shape)
    ensures r.Some? ==> r.value.shape.Tup? && |r.value.shape.kids| == 2
  {
    match ZippedParts(layout.shape, tiler.shape)
    case None => None
    case Some(p) => Some(RowMajorLayout(Tup([p.0, p.1])))
  }

  /** No tile extent is zero (the divisions of zipped_divide are all defined). */
  predicate PositiveTile(t: Tuple)
  {
    Odometer.Positive(Flatten(t))
  }

  /** Leaf by leaf, fr holds the quotient of fl by ft. */
  predicate LeafQuotients(fr: seq<nat>, fl: seq<nat>, ft: seq<nat>)
  {
    |fr| == |fl| == |ft| && forall k :: 0 <= k < |ft| ==> ft[k] > 0 && fr[k] == fl[k] / ft[k]
  }

  lemma LeafQuotientsAppend(fr0: seq<nat>, fl0: seq<nat>, ft0: seq<nat>, frr: seq<nat>, flr: seq<nat>, ftr: seq<nat>)
    requires LeafQuotients(fr0, fl0, ft0) && LeafQuotients(frr, flr, ftr)
    ensures LeafQuotients(fr0 + frr, fl0 + flr, ft0 + ftr)
  {
    var n := |ft0|;
    forall k | n <= k < n + |ftr|
      ensures (fr0 + frr)[k] == frr[k - n] && (fl0 + flr)[k] == flr[k - n] && (ft0 + ftr)[k] == ftr[k - n]
    {
    }
  }

  lemma PositiveSplit(a: seq<nat>, b: seq<nat>)
    requires Odometer.Positive(a + b)
    ensures Odometer.Positive(a) && Odometer.Positive(b)
  {
    forall k | 0 <= k < |a| ensures a[k] > 0 {
      assert (a + b)[k] == a[k];
    }
    forall k | 0 <= k < |b| ensures b[k] > 0 {
      assert (a + b)[|a| + k] == b[k];
    }
  }

  /** On congruent trees with positive tile extents zipped_divide succeeds; the tile is the
      tiler verbatim and the rest is congruent with it, holding leaf by leaf the quotient of
      the layout extent by the tile extent. */
  lemma {:induction false} ZippedPartsSpec(l: Tuple, t: Tuple)
    requires Congruent(l, t) && PositiveTile(t)
    ensures var z := ZippedParts(l, t);
      z.Some? && z.value.0 == t && Congruent(z.value.1, t) &&
      LeafQuotients(Flatten(z.value.1), Flatten(l), Flatten(t))
    decreases l, 1
  {
    CongruentFlatLen(l, t);
    if l.Tup? {
      ZippedKidsSpec(l.kids, t.kids);
      var z := ZippedKids(l.kids, t.kids).value;
      assert z.0 == t.kids;
    }
  }

  lemma {:induction false} ZippedKidsSpec(l: seq<Tuple>, t: seq<Tuple>)
    requires CongruentKids(l, t) && Odometer.Positive(FlattenKids(t))
    ensures var z := ZippedKids(l, t);
      z.Some? && z.value.0 == t && CongruentKids(z.value.1, t) &&
      LeafQuotients(FlattenKids(z.value.1), FlattenKids(l), FlattenKids(t))
    decreases l, 0
  {
    CongruentKidsFlatLen(l, t);
    if l != [] {
      assert FlattenKids(t) == Flatten(t[0]) + FlattenKids(t[1..]);
      PositiveSplit(Flatten(t[0]), FlattenKids(t[1..]));
      ZippedPartsSpec(l[0], t[0]);
      ZippedKidsSpec(l[1..], t[1..]);
      var h := ZippedParts(l[0], t[0]).value;
      var rest := ZippedKids(l[1..], t[1..]).value;
      var rs := [h.1] + rest.1;
      assert rs[1..] == rest.1;
      assert t == [t[0]] + t[1..];
      assert FlattenKids(rs) == Flatten(h.1) + FlattenKids(rest.1);
      assert FlattenKids(l) == Flatten(l[0]) + FlattenKids(l[1..]);
      LeafQuotientsAppend(Flatten(h.1), Flatten(l[0]), Flatten(t[0]), FlattenKids(rest.1), FlattenKids(l[1..]), FlattenKids(t[1..]));
    }
  }

  /** Conversely, a zipped_divide of congruent trees that succeeds had no zero tile extent. */
  lemma {:induction false} ZippedPartsPositive(l: Tuple, t: Tuple)
    requires Congruent(l, t) && ZippedParts(l, t).Some?
    ensures PositiveTile(t)
    decreases l, 1
  {
    if l.Tup? {
      ZippedKidsPositive(l.kids, t.kids);
    }
  }

  lemma {:induction false} ZippedKidsPositive(l: seq<Tuple>, t: seq<Tuple>)
    requires CongruentKids(l, t) && ZippedKids(l, t).Some?
    ensures Odometer.Positive(FlattenKids(t))
    decreases l, 0
  {
    if l != [] {
      ZippedPartsPositive(l[0], t[0]);
      ZippedKidsPositive(l[1..], t[1..]);
      var a, b := Flatten(t[0]), FlattenKids(t[1..]);
      assert FlattenKids(t) == a + b;
      forall k | 0 <= k < |FlattenKids(t)| ensures FlattenKids(t)[k] > 0 {
        if k >= |a| {
          assert FlattenKids(t)[k] == b[k - |a|];
        }
      }
    }
  }

  /** On congruent trees zipped_divide succeeds exactly when no tile extent is zero. */
  lemma ZippedDivideDefined(layout: Layout, tiler: Layout)
    requires Congruent(layout.shape, tiler.shape)
    ensures ZippedDivide(layout, tiler).Some? <==> PositiveTile(tiler.shape)
  {
    if PositiveTile(tiler.shape) {
      ZippedPartsSpec(layout.shape, tiler.shape);
    } else if ZippedParts(layout.shape, tiler.shape).Some? {
      ZippedPartsPositive(layout.shape, tiler.shape);
    }
  }

  /** A leaf meeting a branch anywhere along the zip makes zipped_divide fail. */
  lemma {:induction false} ZippedMismatch(l: Tuple, t: Tuple)
    requires ZipMismatch(l, t)
    ensures ZippedParts(l, t).None?
    decreases l, 1
  {
    if l.Tup? && t.Tup? {
      ZippedKidsMismatch(l.kids, t.kids);
    }
  }

  lemma {:induction false} ZippedKidsMismatch(l: seq<Tuple>, t: seq<Tuple>)
    requires exists i :: 0 <= i < |l| && i < |t| && ZipMismatch(l[i], t[i])
    ensures ZippedKids(l, t).None?
    decreases l, 0
  {
    var i :| 0 <= i < |l| && i < |t| && ZipMismatch(l[i], t[i]);
    if i == 0 {
      ZippedMismatch(l[0], t[0]);
    } else if ZippedParts(l[0], t[0]).Some? {
      assert ZipMismatch(l[1..][i - 1], t[1..][i - 1]);
      ZippedKidsMismatch(l[1..], t[1..]);
    }
  }

  /** The top-level form: zipped_divide, and with it tiled_divide and flat_divide, is refused
      on a leaf/branch mismatch along the zip of the two shapes. */
  lemma ZippedDivideRefused(layout: Layout, tiler: Layout)
    requires ZipMismatch(layout.shape, tiler.shape)
    ensures ZippedDivide(layout, tiler).None? && TiledDivide(layout, tiler).None? && FlatDivide(layout, tiler).None?
  {
    ZippedMismatch(layout.shape, tiler.shape);
  }

  /** When every tile extent divides its layout extent exactly, the tile and the rest together
      describe exactly the elements of the layout: size(tile) * size(rest) == size(layout). */
  lemma {:induction false} ExactQuotientSize(l: seq<nat>, t: seq<nat>, q: seq<nat>)
    requires |l| == |t| == |q|
    requires forall k :: 0 <= k < |l| ==> t[k] > 0 && l[k] % t[k] == 0 && q[k] == l[k] / t[k]
    ensures Product(t) * Product(q) == Product(l)
  {
    if l != [] {
      ExactQuotientSize(l[1..], t[1..], q[1..]);
      assert l[0] == t[0] * q[0];
      calc {
        Product(t) * Product(q);
        (t[0] * Product(t[1..])) * (q[0] * Product(q[1..]));
        (t[0] * q[0]) * (Product(t[1..]) * Product(q[1..]));
      }
    }
  }

  lemma ZippedDivideSize(layout: Layout, tiler: Layout)
    requires Congruent(layout.shape, tiler.shape) && PositiveTile(tiler.shape)
    requires forall k :: 0 <= k < |Flatten(layout.shape)| && k < |Flatten(tiler.shape)| ==>
      Flatten(layout.shape)[k] % Flatten(tiler.shape)[k] == 0
    ensures var r := ZippedDivide(layout, tiler);
      r.Some? && r.value.shape.kids[0] == tiler.shape &&
      Size(r.value.shape.kids[0]) * Size(r.value.shape.kids[1]) == Size(layout.shape)
  {
    ZippedPartsSpec(layout.shape, tiler.shape);
    var z := ZippedParts(layout.shape, tiler.shape).value;
    ExactQuotientSize(Flatten(layout.shape), Flatten(tiler.shape), Flatten(z.1));
  }

  /** 8x6 by 2x3 under zipped_divide gives ((2,3),(4,2)). */
  lemma ZippedDivideExample()
    ensures var r := ZippedDivide(RowMajorLayout(Tup([Int([8]), Int([6])])), RowMajorLayout(Tup([Int([2]), Int([3])])));
      r.Some? && r.value.shape == Tup([Tup([Int([2]), Int([3])]), Tup([Int([4]), Int([2])])])
  {
    var l1, t1 := [Int([8]), Int([6])], [Int([2]), Int([3])];
    ZippedPairExample(8, 2, 6, 3);
    assert 8 / 2 == 4 && 6 / 3 == 2;
    assert ZippedParts(Tup(l1), Tup(t1)) == Some((Tup(t1), Tup([Int([4]), Int([2])])));
  }

  /** Two single-extent modes (a),(c) zipped with (b),(d) give tile (b),(d) and rest
      (a/b),(c/d). */
  lemma ZippedPairExample(a: nat, b: nat, c: nat, d: nat)
    requires b > 0 && d > 0
    ensures ZippedKids([Int([a]), Int([c])], [Int([b]), Int([d])]) ==
      Some(([Int([b]), Int([d])], [Int([a / b]), Int([c / d])]))
  {
    QuotientsSingle(a, b);
    QuotientsSingle(c, d);
    var l, t := [Int([a]), Int([c])], [Int([b]), Int([d])];
    assert l[1..] == [Int([c])] && t[1..] == [Int([d])];
    assert l[1..][1..] == [] && t[1..][1..] == [];
    assert ZippedParts(Int([a]), Int([b])) == Some((Int([b]), Int([a / b])));
    assert ZippedParts(Int([c]), Int([d])) == Some((Int([d]), Int([c / d])));
    assert ZippedKids(l[1..][1..], t[1..][1..]) == Some(([], []));
    assert [Int([d])] + [] == [Int([d])] && [Int([c / d])] + [] == [Int([c / d])];
    assert ZippedKids(l[1..], t[1..]) == Some(([Int([d])], [Int([c / d])]));
    assert [Int([b])] + [Int([d])] == [Int([b]), Int([d])];
    assert [Int([a / b])] + [Int([c / d])] == [Int([a / b]), Int([c / d])];
  }

  /* ---------- tiled_divide / flat_divide ---------- */

  lemma FlattenPair(a: Tuple, b: Tuple)
    ensures Flatten(Tup([a, b])) == Flatten(a) + Flatten(b)
  {
    var k := [a, b];
    assert k[1..] == [b] && k[1..][1..] == [];
    assert FlattenKids(k[1..]) == Flatten(b) + FlattenKids([]);
    assert Flatten(b) + [] == Flatten(b);
  }

  /** Keeps the tile group and lifts the rest group's children one level up. */
  function SpliceRest(tile: Tuple, rest: Tuple): (r: Tuple)
    ensures r.Tup? && |r.kids| >= 1 && r.kids[0] == tile
    ensures rest.Tup? ==> r.kids == [tile] + rest.kids
    ensures rest.Int? ==> r.kids == [tile, rest]
    ensures Flatten(r) == Flatten(tile) + Flatten(rest)
  {
    var lifted := if rest.Tup? then rest.kids else [Int(rest.vals)];
    var kids := [tile] + lifted;
    assert kids[1..] == lifted;
    assert FlattenKids(lifted) == Flatten(rest) by {
      if rest.Int? {
        assert lifted[1..] == [];
      }
    }
    Tup(kids)
  }

  /** tiled_divide: ((TileM,TileN,...), RestM, RestN, ...) with a row-major stride. */
  function TiledDivide(layout: Layout, tiler: Layout): (r: Option<Layout>)
    ensures r.Some? ==> r.value == RowMajorLayout(r.value.shape)
    ensures r.Some? <==> ZippedDivide(layout, tiler).Some?
    ensures r.Some? ==> Flatten(r.value.shape) == Flatten(ZippedDivide(layout, tiler).value.shape)
    ensures r.Some? ==> var z := ZippedDivide(layout, tiler).value.shape;
      r.value.shape.Tup? && |r.value.shape.kids| >= 1 && r.value.shape.kids[0] == z.kids[0] &&
      r.value.shape.kids[1..] == (if z.kids[1].Tup? then z.kids[1].kids else [z.kids[1]])
  {
    match ZippedDivide(layout, tiler)
    case None => None
    case Some(z) =>
      var kids := z.shape.kids;
      FlattenPair(kids[0], kids[1]);
      assert z.shape == Tup([kids[0], kids[1]]);
      Some(RowMajorLayout(SpliceRest(kids[0], kids[1])))
  }

  /** flat_divide: (TileM,TileN,..., RestM,RestN,...) as one leaf with a row-major stride. */
  function FlatDivide(layout: Layout, tiler: Layout): (r: Option<Layout>)
    ensures r.Some? ==> r.value == RowMajorLayout(r.value.shape) && r.value.shape.Int?
    ensures r.Some? <==> ZippedDivide(layout, tiler).Some?
  {
    match TiledDivide(layout, tiler)
    case None => None
    case Some(td) => Some(RowMajorLayout(Int(Flatten(td.shape))))
  }

  /** The flat_divide leaves are the tiler's leaves followed by the quotients; in particular
      its first flat_len(tiler) entries are the tile extents. */
  lemma FlatDivideLeaves(layout: Layout, tiler: Layout)
    requires Congruent(layout.shape, tiler.shape) && PositiveTile(tiler.shape)
    ensures var r := FlatDivide(layout, tiler); var n := |Flatten(tiler.shape)|;
      r.Some? && |r.value.shape.vals| == 2 * n && |Flatten(layout.shape)| == n && r.value.shape.vals[..n] == Flatten(tiler.shape) &&
      forall k :: 0 <= k < n ==> r.value.shape.vals[n + k] == Flatten(layout.shape)[k] / Flatten(tiler.shape)[k]
  {
    ZippedPartsSpec(layout.shape, tiler.shape);
    var z := ZippedParts(layout.shape, tiler.shape).value;
    FlattenPair(z.0, z.1);
  }

  /** 8x6 by 2x3 under tiled_divide gives ((2,3),4,2), and under flat_divide (2,3,4,2). */
  lemma TiledAndFlatDivideExample()
    ensures var l, t := RowMajorLayout(Tup([Int([8]), Int([6])])), RowMajorLayout(Tup([Int([2]), Int([3])]));
      TiledDivide(l, t).Some? && TiledDivide(l, t).value.shape == Tup([Tup([Int([2]), Int([3])]), Int([4]), Int([2])]) &&
      FlatDivide(l, t).Some? && FlatDivide(l, t).value.shape == Int([2, 3, 4, 2])
  {
    ZippedDivideExample();
    SpliceExample();
  }

  /** Splicing the rest (4,2) after the tile (2,3) gives ((2,3),4,2), whose leaves are
      2, 3, 4, 2. */
  lemma SpliceExample()
    ensures var a := Tup([Int([2]), Int([3])]);
      SpliceRest(a, Tup([Int([4]), Int([2])])) == Tup([a, Int([4]), Int([2])]) &&
      Flatten(SpliceRest(a, Tup([Int([4]), Int([2])]))) == [2, 3, 4, 2]
  {
    var a, b := Tup([Int([2]), Int([3])]), Tup([Int([4]), Int([2])]);
    assert [a] + b.kids == [a, Int([4]), Int([2])];
    FlattenPair(Int([2]), Int([3]));
    FlattenPair(Int([4]), Int([2]));
  }
}
