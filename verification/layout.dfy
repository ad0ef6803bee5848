/** A layout pairs a shape tree with a congruent stride tree and maps coordinates to
    linear offsets. Strides come from one of two policies (row-major, column-major) or
    are given explicitly for subviews. */
module Layouts {
  import opened Options
  import opened Nested
  import opened Arith

  datatype Layout = Layout(shape: Tuple, stride: Tuple)

  /* ---------- stride policies, as specifications ---------- */

  /** Multiply every entry of a list by `f`. */
  function ScaleFlat(v: seq<nat>, f: nat): (r: seq<nat>)
    ensures |r| == |v|
  {
    seq(|v|, i requires 0 <= i < |v| => v[i] * f)
  }

  /** Multiply every leaf of a stride tree by `f`, keeping its structure. */
  function ScaleStride(t: Tuple, f: nat): (r: Tuple)
    ensures Congruent(r, t)
    ensures Flatten(r) == ScaleFlat(Flatten(t), f)
    decreases t, 1
  {
    match t
    case Int(v) => Int(ScaleFlat(v, f))
    case Tup(k) => Tup(ScaleKids(k, f))
  }

  function ScaleKids(k: seq<Tuple>, f: nat): (r: seq<Tuple>)
    ensures CongruentKids(r, k)
    ensures FlattenKids(r) == ScaleFlat(FlattenKids(k), f)
    decreases k, 0
  {
    if k == [] then []
    else
      var r := [ScaleStride(k[0], f)] + ScaleKids(k[1..], f);
      assert r[1..] == ScaleKids(k[1..], f);
      r
  }

  /** Flat row-major strides: entry i is the product of the extents to its right,
      so the innermost entry is 1. */
  function RowMajorFlat(sizes: seq<nat>): (r: seq<nat>)
    ensures |r| == |sizes|
  {
    seq(|sizes|, i requires 0 <= i < |sizes| => Product(sizes[i + 1..]))
  }

  /** Flat column-major strides: entry i is the product of the extents to its left,
      so the outermost entry is 1. */
  function ColMajorFlat(sizes: seq<nat>): (r: seq<nat>)
    ensures |r| == |sizes|
  {
    seq(|sizes|, i requires 0 <= i < |sizes| => Product(sizes[..i]))
  }

  /** Row-major stride tree: a leaf gets flat row-major strides; the children of a branch
      get their own row-major strides scaled by the total size of the children to their right. */
  function RowMajor(shape: Tuple): Tuple
    decreases shape, 1
  {
    match shape
    case Int(sizes) => Int(RowMajorFlat(sizes))
    case Tup(k) => Tup(RowMajorKids(k))
  }

  function RowMajorKids(k: seq<Tuple>): (r: seq<Tuple>)
    ensures |r| == |k|
    decreases k, 0
  {
    seq(|k|, i requires 0 <= i < |k| => ScaleStride(RowMajor(k[i]), Size(Tup(k[i + 1..]))))
  }

  /** Column-major stride tree: the mirror image, scaling each child by the total size of
      the children to its left. */
  function ColMajor(shape: Tuple): Tuple
    decreases shape, 1
  {
    match shape
    case Int(sizes) => Int(ColMajorFlat(sizes))
    case Tup(k) => Tup(ColMajorKids(k))
  }

  function ColMajorKids(k: seq<Tuple>): (r: seq<Tuple>)
    ensures |r| == |k|
    decreases k, 0
  {
    seq(|k|, i requires 0 <= i < |k| => ScaleStride(ColMajor(k[i]), Size(Tup(k[..i]))))
  }

  function RowMajorLayout(shape: Tuple): Layout
  {
    Layout(shape, RowMajor(shape))
  }

  function ColMajorLayout(shape: Tuple): Layout
  {
    Layout(shape, ColMajor(shape))
  }

  /** Arbitrary shape and stride, as used for subviews. */
  function WithShapeStride(shape: Tuple, stride: Tuple): (l: Layout)
    ensures l.shape == shape && l.stride == stride
  {
    Layout(shape, stride)
  }

  /** size: the product of the extents, zero exactly when some extent is zero. */
  function LayoutSize(l: Layout): (n: nat)
    ensures n == 0 <==> exists k :: 0 <= k < |Flatten(l.shape)| && Flatten(l.shape)[k] == 0
  {
    ProductZero(Flatten(l.shape));
    Size(l.shape)
  }

  /** Offset of a coordinate: its dot product with the stride tree. */
  function Crd2Idx(l: Layout, crd: Tuple): (i: nat)
    requires Congruent(crd, l.stride)
    ensures |Flatten(crd)| == |Flatten(l.stride)| && i == FlatDot(Flatten(crd), Flatten(l.stride))
  {
    DotFlatten(crd, l.stride);
    Dot(crd, l.stride)
  }

  /** A layout is contiguous when its flattened strides are exactly the dense row-major
      strides of its flattened extents. */
  predicate IsContiguous(l: Layout)
  {
    Flatten(l.stride) == RowMajorFlat(Flatten(l.shape))
  }

  /* ---------- stride policies, as the loops that compute them ---------- */

  function Reverse<X>(s: seq<X>): (r: seq<X>)
    ensures |r| == |s|
  {
    seq(|s|, i requires 0 <= i < |s| => s[|s| - 1 - i])
  }

  lemma ProductCons(s: seq<nat>, i: nat)
    requires i < |s|
    ensures Product(s[i..]) == s[i] * Product(s[i + 1..])
  {
    assert s[i..][1..] == s[i + 1..];
  }

  lemma ProductSnoc(s: seq<nat>, i: nat)
    requires i < |s|
    ensures Product(s[..i + 1]) == Product(s[..i]) * s[i]
  {
    assert s[..i + 1] == s[..i] + [s[i]];
    ProductAppend(s[..i], [s[i]]);
  }

  lemma SizeTupCons(k: seq<Tuple>, i: nat)
    requires i < |k|
    ensures Size(Tup(k[i..])) == Size(k[i]) * Size(Tup(k[i + 1..]))
  {
    assert k[i..] == [k[i]] + k[i + 1..];
    assert FlattenKids(k[i..]) == Flatten(k[i]) + FlattenKids(k[i + 1..]);
    ProductAppend(Flatten(k[i]), FlattenKids(k[i + 1..]));
  }

  lemma SizeTupSnoc(k: seq<Tuple>, i: nat)
    requires i < |k|
    ensures Size(Tup(k[..i + 1])) == Size(Tup(k[..i])) * Size(k[i])
  {
    assert k[..i + 1] == k[..i] + [k[i]];
    FlattenKidsAppend(k[..i], [k[i]]);
    assert FlattenKids([k[i]]) == Flatten(k[i]) + FlattenKids([]);
    assert FlattenKids([k[i]]) == Flatten(k[i]);
    ProductAppend(FlattenKids(k[..i]), Flatten(k[i]));
  }

  /** Row-major strides, computed right to left with a running product; a branch's
      children are handled by RowMajorKidsStride. */
  method RowMajorStride(shape: Tuple) returns (stride: Tuple)
    ensures stride == RowMajor(shape)
    decreases shape, 1
  {
    match shape
    case Int(sizes) =>
      var st := RowMajorLeafStride(sizes);
      stride := Int(st);
    case Tup(kids) =>
      var k := RowMajorKidsStride(kids);
      stride := Tup(k);
  }

  /** A leaf's row-major strides, filled into a buffer from the innermost extent outwards. */
  method RowMajorLeafStride(sizes: seq<nat>) returns (st: seq<nat>)
    ensures st == RowMajorFlat(sizes)
  {
    var buf := new nat[|sizes|];
    var acc := 1;
    var i := |sizes|;
    while i > 0
      invariant 0 <= i <= |sizes|
      invariant acc == Product(sizes[i..])
      invariant forall j :: i <= j < |sizes| ==> buf[j] == Product(sizes[j + 1..])
    {
      i := i - 1;
      buf[i] := acc;
      ProductCons(sizes, i);
      acc := acc * sizes[i];
    }
    st := buf[..];
  }

  /** Children's row-major strides: walked right to left with the running size of the
      children already passed, each scaled by it and pushed, the list reversed at the end. */
  method RowMajorKidsStride(kids: seq<Tuple>) returns (r: seq<Tuple>)
    ensures r == RowMajorKids(kids)
    decreases kids, 0
  {
    var acc := 1;
    var out: seq<Tuple> := [];
    var i := |kids|;
    assert kids[i..] == [];
    while i > 0
      invariant 0 <= i <= |kids|
      invariant acc == Size(Tup(kids[i..]))
      invariant |out| == |kids| - i
      invariant forall j :: 0 <= j < |out| ==> out[j] == RowMajorKids(kids)[|kids| - 1 - j]
    {
      i := i - 1;
      var sub := RowMajorStride(kids[i]);
      var scaled := ScaleStride(sub, acc);
      SizeTupCons(kids, i);
      acc := acc * Size(kids[i]);
      out := out + [scaled];
    }
    r := Reverse(out);
  }

  /** Column-major strides, computed left to right with a running product; a branch's
      children are handled by ColMajorKidsStride. */
  method ColMajorStride(shape: Tuple) returns (stride: Tuple)
    ensures stride == ColMajor(shape)
    decreases shape, 1
  {
    match shape
    case Int(sizes) =>
      var st := ColMajorLeafStride(sizes);
      stride := Int(st);
    case Tup(kids) =>
      var k := ColMajorKidsStride(kids);
      stride := Tup(k);
  }

  /** A leaf's column-major strides, appended from the outermost extent inwards. */
  method ColMajorLeafStride(sizes: seq<nat>) returns (st: seq<nat>)
    ensures st == ColMajorFlat(sizes)
  {
    st := [];
    var acc := 1;
    var i := 0;
    while i < |sizes|
      invariant 0 <= i <= |sizes|
      invariant acc == Product(sizes[..i])
      invariant |st| == i
      invariant forall j :: 0 <= j < i ==> st[j] == Product(sizes[..j])
    {
      st := st + [acc];
      ProductSnoc(sizes, i);
      acc := acc * sizes[i];
      i := i + 1;
    }
  }

  /** Children's column-major strides: walked left to right, each scaled by the running
      size of the children before it. */
  method ColMajorKidsStride(kids: seq<Tuple>) returns (r: seq<Tuple>)
    ensures r == ColMajorKids(kids)
    decreases kids, 0
  {
    var acc := 1;
    r := [];
    var i := 0;
    while i < |kids|
      invariant 0 <= i <= |kids|
      invariant acc == Size(Tup(kids[..i]))
      invariant r == ColMajorKids(kids)[..i]
    {
      var sub := ColMajorStride(kids[i]);
      var scaled := ScaleStride(sub, acc);
      SizeTupSnoc(kids, i);
      acc := acc * Size(kids[i]);
      r := r + [scaled];
      i := i + 1;
    }
  }

  /* ---------- what the stride policies compute ---------- */

  lemma ScaleFlatAppend(a: seq<nat>, b: seq<nat>, f: nat)
    ensures ScaleFlat(a + b, f) == ScaleFlat(a, f) + ScaleFlat(b, f)
  {
  }

  lemma ScaleFlatCompose(a: seq<nat>, f: nat, g: nat)
    ensures ScaleFlat(ScaleFlat(a, f), g) == ScaleFlat(a, f * g)
  {
    forall i | 0 <= i < |a| ensures a[i] * f * g == a[i] * (f * g) { }
  }

  /** Row-major strides of a concatenation: the left part is scaled by the product of the
      right part. */
  lemma RowMajorFlatAppend(a: seq<nat>, b: seq<nat>)
    ensures RowMajorFlat(a + b) == ScaleFlat(RowMajorFlat(a), Product(b)) + RowMajorFlat(b)
  {
    var l, r := RowMajorFlat(a + b), ScaleFlat(RowMajorFlat(a), Product(b)) + RowMajorFlat(b);
    forall i | 0 <= i < |a + b| ensures l[i] == r[i] {
      if i < |a| {
        assert (a + b)[i + 1..] == a[i + 1..] + b;
        ProductAppend(a[i + 1..], b);
      } else {
        assert (a + b)[i + 1..] == b[i - |a| + 1..];
      }
    }
  }

  /** Column-major strides of a concatenation: the right part is scaled by the product of
      the left part. */
  lemma ColMajorFlatAppend(a: seq<nat>, b: seq<nat>)
    ensures ColMajorFlat(a + b) == ColMajorFlat(a) + ScaleFlat(ColMajorFlat(b), Product(a))
  {
    var l, r := ColMajorFlat(a + b), ColMajorFlat(a) + ScaleFlat(ColMajorFlat(b), Product(a));
    forall i | 0 <= i < |a + b| ensures l[i] == r[i] {
      ColMajorFlatAppendAt(a, b, i);
    }
  }

  lemma ColMajorFlatAppendAt(a: seq<nat>, b: seq<nat>, i: nat)
    requires i < |a + b|
    ensures i < |a| ==> ColMajorFlat(a + b)[i] == ColMajorFlat(a)[i]
    ensures |a| <= i ==> ColMajorFlat(a + b)[i] == ColMajorFlat(b)[i - |a|] * Product(a)
  {
    if i < |a| {
      assert (a + b)[..i] == a[..i];
    } else {
      assert (a + b)[..i] == a + b[..i - |a|];
      ProductAppend(a, b[..i - |a|]);
    }
  }

  /** The hierarchical row-major policy is congruent with the shape and, flattened, is exactly
      the flat row-major stride of the flattened extents. */
  lemma {:induction false} RowMajorFlattens(shape: Tuple)
    ensures Congruent(RowMajor(shape), shape)
    ensures Flatten(RowMajor(shape)) == RowMajorFlat(Flatten(shape))
    decreases shape, 1
  {
    if shape.Tup? {
      RowMajorKidsFlattens(shape.kids);
    }
  }

  lemma {:induction false} RowMajorKidsFlattens(k: seq<Tuple>)
    ensures CongruentKids(RowMajorKids(k), k)
    ensures FlattenKids(RowMajorKids(k)) == RowMajorFlat(FlattenKids(k))
    decreases k, 0
  {
    if k != [] {
      var r := RowMajorKids(k);
      forall i | 0 <= i < |k| ensures Congruent(r[i], k[i]) {
        RowMajorFlattens(k[i]);
        CongruentTransitive(r[i], RowMajor(k[i]), k[i]);
      }
      assert r[1..] == RowMajorKids(k[1..]) by {
        forall i | 0 <= i < |k| - 1 ensures r[1..][i] == RowMajorKids(k[1..])[i] {
          assert k[1..][i + 1..] == k[i + 2..];
        }
      }
      RowMajorKidsFlattens(k[1..]);
      RowMajorFlattens(k[0]);
      calc {
        FlattenKids(r);
        Flatten(r[0]) + FlattenKids(r[1..]);
        ScaleFlat(RowMajorFlat(Flatten(k[0])), Product(FlattenKids(k[1..]))) + RowMajorFlat(FlattenKids(k[1..]));
        { RowMajorFlatAppend(Flatten(k[0]), FlattenKids(k[1..])); }
        RowMajorFlat(Flatten(k[0]) + FlattenKids(k[1..]));
      }
    }
  }

  /** The column-major policy is congruent with the shape and flattens to the flat
      column-major stride of the flattened extents. */
  lemma {:induction false} ColMajorFlattens(shape: Tuple)
    ensures Congruent(ColMajor(shape), shape)
    ensures Flatten(ColMajor(shape)) == ColMajorFlat(Flatten(shape))
    decreases shape, 1
  {
    if shape.Tup? {
      ColMajorKidsFlattens(shape.kids);
    }
  }

  lemma {:induction false} ColMajorKidsFlattens(k: seq<Tuple>)
    ensures CongruentKids(ColMajorKids(k), k)
    ensures FlattenKids(ColMajorKids(k)) == ColMajorFlat(FlattenKids(k))
    decreases k, 1
  {
    ColMajorKidsCongruent(k);
    if k != [] {
      var r := ColMajorKids(k);
      var n := |k| - 1;
      var front := k[..n];
      ColMajorKidsPrefix(k);
      ColMajorKidsFlattens(front);
      ColMajorFlattens(k[n]);
      FlattenKidsSnoc(r);
      FlattenKidsSnoc(k);
      ColMajorFlatAppend(FlattenKids(front), Flatten(k[n]));
    }
  }

  lemma {:induction false} ColMajorKidsCongruent(k: seq<Tuple>)
    ensures CongruentKids(ColMajorKids(k), k)
    decreases k, 0
  {
    var r := ColMajorKids(k);
    forall i | 0 <= i < |k| ensures Congruent(r[i], k[i]) {
      ColMajorFlattens(k[i]);
      CongruentTransitive(r[i], ColMajor(k[i]), k[i]);
    }
  }

  lemma ColMajorKidsPrefix(k: seq<Tuple>)
    requires k != []
    ensures ColMajorKids(k)[..|k| - 1] == ColMajorKids(k[..|k| - 1])
  {
    var n := |k| - 1;
    forall i | 0 <= i < n ensures ColMajorKids(k)[i] == ColMajorKids(k[..n])[i] {
      ColMajorKidsAt(k, n, i);
    }
  }

  /** The i-th column-major child depends only on the children up to i. */
  lemma ColMajorKidsAt(k: seq<Tuple>, n: nat, i: nat)
    requires i < n <= |k|
    ensures ColMajorKids(k)[i] == ColMajorKids(k[..n])[i]
  {
    var p := k[..n];
    assert p[i] == k[i];
    assert p[..i] == k[..i];
  }

  lemma FlattenKidsSnoc(k: seq<Tuple>)
    requires k != []
    ensures FlattenKids(k) == FlattenKids(k[..|k| - 1]) + Flatten(k[|k| - 1])
  {
    var n := |k| - 1;
    assert k == k[..n] + [k[n]];
    FlattenKidsAppend(k[..n], [k[n]]);
    assert FlattenKids([k[n]]) == Flatten(k[n]) + FlattenKids([]);
  }

  /** Leaf form of the row-major policy: innermost stride 1, each stride the product of the
      extents to its right. */
  lemma RowMajorLeafStrides(sizes: seq<nat>)
    requires |sizes| > 0
    ensures RowMajor(Int(sizes)).vals[|sizes| - 1] == 1
    ensures forall i :: 0 <= i < |sizes| - 1 ==>
      RowMajor(Int(sizes)).vals[i] == sizes[i + 1] * RowMajor(Int(sizes)).vals[i + 1]
  {
    forall i | 0 <= i < |sizes| - 1
      ensures RowMajor(Int(sizes)).vals[i] == sizes[i + 1] * RowMajor(Int(sizes)).vals[i + 1]
    {
      ProductCons(sizes, i + 1);
    }
  }

  /** Leaf form of the column-major policy: outermost stride 1, each stride the product of
      the extents to its left. */
  lemma ColMajorLeafStrides(sizes: seq<nat>)
    requires |sizes| > 0
    ensures ColMajor(Int(sizes)).vals[0] == 1
    ensures forall i :: 0 < i < |sizes| ==>
      ColMajor(Int(sizes)).vals[i] == ColMajor(Int(sizes)).vals[i - 1] * sizes[i - 1]
  {
    forall i | 0 < i < |sizes|
      ensures ColMajor(Int(sizes)).vals[i] == ColMajor(Int(sizes)).vals[i - 1] * sizes[i - 1]
    {
      ProductSnoc(sizes, i - 1);
    }
  }

  /** The row-major stride of the two-mode shape (a),(b) is (b),(1). */
  lemma RowMajorPairExample(a: nat, b: nat)
    ensures RowMajor(Tup([Int([a]), Int([b])])) == Tup([Int([b]), Int([1])])
  {
    var k := [Int([a]), Int([b])];
    assert k[1..] == [Int([b])] && k[2..] == [];
    assert Flatten(Int([b])) == [b];
    assert FlattenKids(k[1..]) == [b] by {
      assert k[1..][1..] == [];
    }
    assert Product([b]) == b;
    assert Size(Tup(k[1..])) == b;
    assert Size(Tup(k[2..])) == 1;
    assert RowMajorFlat([a]) == [1] && RowMajorFlat([b]) == [1];
    assert ScaleFlat([1], b) == [b] && ScaleFlat([1], 1) == [1];
  }

  /** Scaling a stride tree by 1 leaves it unchanged. */
  lemma {:induction false} ScaleByOne(t: Tuple)
    ensures ScaleStride(t, 1) == t
    decreases t, 1
  {
    match t
    case Int(v) =>
      assert ScaleFlat(v, 1) == v;
    case Tup(k) =>
      ScaleKidsByOne(k);
  }

  lemma {:induction false} ScaleKidsByOne(k: seq<Tuple>)
    ensures ScaleKids(k, 1) == k
    decreases k, 0
  {
    if k != [] {
      ScaleByOne(k[0]);
      ScaleKidsByOne(k[1..]);
      assert k == [k[0]] + k[1..];
    }
  }

  /** Shape (2,(3,4)) gets row-major stride (12,(4,1)). */
  lemma HierarchicalRowMajorExample()
    ensures RowMajor(Tup([Int([2]), Tup([Int([3]), Int([4])])]))
         == Tup([Int([12]), Tup([Int([4]), Int([1])])])
  {
    var inner := [Int([3]), Int([4])];
    var outer := [Int([2]), Tup(inner)];
    RowMajorPairExample(3, 4);
    ScaleByOne(Tup([Int([4]), Int([1])]));
    assert Size(Tup(outer[1..])) == 12 by {
      assert outer[1..] == [Tup(inner)] && inner[1..] == [Int([4])];
      assert FlattenKids(inner) == [3, 4];
      assert FlattenKids(outer[1..]) == [3, 4];
    }
    assert Size(Tup(outer[2..])) == 1 by { assert outer[2..] == []; }
    assert RowMajorFlat([2]) == [1] && ScaleFlat([1], 12) == [12];
    assert RowMajorKids(outer)[0] == Int([12]);
    assert RowMajorKids(outer)[1] == Tup([Int([4]), Int([1])]);
  }

  /** Every row-major layout is contiguous. */
  lemma RowMajorIsContiguous(shape: Tuple)
    ensures IsContiguous(RowMajorLayout(shape))
  {
    RowMajorFlattens(shape);
  }

  /* ---------- offset to coordinate ---------- */

  function Min(a: nat, b: nat): nat
  {
    if a <= b then a else b
  }

  /** Puts `pre` in front of the coordinate list of a decoding result. */
  function Prepend<X>(pre: seq<X>, r: Option<(seq<X>, nat)>): Option<(seq<X>, nat)>
  {
    match r
    case None => None
    case Some(p) => Some((pre + p.0, p.1))
  }

  /** Decodes `idx` along zipped (extent, stride) pairs: each component is the quotient by
      its stride, the remainder carries on; a zero stride or a component not below its
      extent aborts. Returns the components and what is left of the index. */
  function DecodeFlat(idx: nat, sizes: seq<nat>, strides: seq<nat>): (r: Option<(seq<nat>, nat)>)
    ensures r.Some? ==> |r.value.0| == Min(|sizes|, |strides|) && r.value.1 <= idx
  {
    if sizes == [] || strides == [] then Some(([], idx))
    else if strides[0] == 0 then None
    else
      var v := idx / strides[0];
      SubDivIsMod(idx, strides[0]);
      if v >= sizes[0] then None
      else Prepend([v], DecodeFlat(idx - v * strides[0], sizes[1..], strides[1..]))
  }

  /** Decodes `idx` along a shape tree and a stride tree walked together in tree order,
      threading the remaining index from one leaf to the next. */
  function Decode(idx: nat, shape: Tuple, stride: Tuple): (r: Option<(Tuple, nat)>)
    decreases shape, 1
  {
    if shape.Int? && stride.Int? then
      match DecodeFlat(idx, shape.vals, stride.vals)
      case None => None
      case Some(p) => Some((Int(p.0), p.1))
    else if shape.Tup? && stride.Tup? then
      match DecodeKids(idx, shape.kids, stride.kids)
      case None => None
      case Some(p) => Some((Tup(p.0), p.1))
    else None
  }

  function DecodeKids(idx: nat, ss: seq<Tuple>, ts: seq<Tuple>): (r: Option<(seq<Tuple>, nat)>)
    ensures r.Some? ==> |r.value.0| == Min(|ss|, |ts|)
    decreases ss, 0
  {
    if ss == [] || ts == [] then Some(([], idx))
    else
      match Decode(idx, ss[0], ts[0])
      case None => None
      case Some(p) => Prepend([p.0], DecodeKids(p.1, ss[1..], ts[1..]))
  }

  /** The coordinate a linear index decodes to under a layout, `None` where decoding aborts. */
  function DecodeIndex(l: Layout, idx: nat): (r: Option<Tuple>)
    ensures Congruent(l.shape, l.stride) && r.Some? ==> InShape(r.value, l.shape)
  {
    DecodeInBox(idx, l.shape, l.stride);
    match Decode(idx, l.shape, l.stride)
    case None => None
    case Some(p) => Some(p.0)
  }

  /** idx2crd: walks the (extent, stride) leaves in tree order with a running index. */
  method Idx2Crd(l: Layout, idx: nat) returns (crd: Option<Tuple>)
    ensures crd == DecodeIndex(l, idx)
  {
    var r := Idx2CrdRec(idx, l.shape, l.stride);
    crd := if r.Some? then Some(r.value.0) else None;
  }

  /** The leaf walk of idx2crd: one quotient per (extent, stride) pair, the remainder
      carried on, aborting on a zero stride or a quotient past its extent. */
  method Idx2CrdFlat(idx: nat, sizes: seq<nat>, strides: seq<nat>) returns (r: Option<(seq<nat>, nat)>)
    ensures r == DecodeFlat(idx, sizes, strides)
  {
    var out: seq<nat> := [];
    var cur := idx;
    var j := 0;
    assert sizes[j..] == sizes && strides[j..] == strides;
    PrependNil(DecodeFlat(idx, sizes, strides));
    while j < |sizes| && j < |strides|
      invariant 0 <= j <= |sizes| && j <= |strides|
      invariant DecodeFlat(idx, sizes, strides) == Prepend(out, DecodeFlat(cur, sizes[j..], strides[j..]))
    {
      assert sizes[j..][1..] == sizes[j + 1..] && strides[j..][1..] == strides[j + 1..];
      var st := strides[j];
      if st == 0 {
        return None;
      }
      var v := cur / st;
      SubDivIsMod(cur, st);
      var left := cur - v * st;
      if v >= sizes[j] {
        return None;
      }
      PrependPrepend(out, [v], DecodeFlat(left, sizes[j + 1..], strides[j + 1..]));
      out := out + [v];
      cur := left;
      j := j + 1;
    }
    assert sizes[j..] == [] || strides[j..] == [];
    assert out + [] == out;
    return Some((out, cur));
  }

  method Idx2CrdRec(idx: nat, shape: Tuple, stride: Tuple) returns (r: Option<(Tuple, nat)>)
    ensures r == Decode(idx, shape, stride)
    decreases shape
  {
    if shape.Int? && stride.Int? {
      var flat := Idx2CrdFlat(idx, shape.vals, stride.vals);
      r := if flat.Some? then Some((Int(flat.value.0), flat.value.1)) else None;
    } else if shape.Tup? && stride.Tup? {
      var ss, ts := shape.kids, stride.kids;
      var kids: seq<Tuple> := [];
      var cur := idx;
      var j := 0;
      assert ss[j..] == ss && ts[j..] == ts;
      PrependNil(DecodeKids(idx, ss, ts));
      while j < |ss| && j < |ts|
        invariant 0 <= j <= |ss| && j <= |ts|
        invariant DecodeKids(idx, ss, ts) == Prepend(kids, DecodeKids(cur, ss[j..], ts[j..]))
      {
        assert ss[j..][1..] == ss[j + 1..] && ts[j..][1..] == ts[j + 1..];
        var sub := Idx2CrdRec(cur, ss[j], ts[j]);
        if sub.None? {
          return None;
        }
        PrependPrepend(kids, [sub.value.0], DecodeKids(sub.value.1, ss[j + 1..], ts[j + 1..]));
        kids := kids + [sub.value.0];
        cur := sub.value.1;
        j := j + 1;
      }
      assert ss[j..] == [] || ts[j..] == [];
      assert kids + [] == kids;
      r := Some((Tup(kids), cur));
    } else {
      r := None;
    }
  }

  /* ---------- the round trip ---------- */

  lemma PrependNil<X>(r: Option<(seq<X>, nat)>)
    ensures Prepend([], r) == r
  {
    if r.Some? {
      assert [] + r.value.0 == r.value.0;
    }
  }

  lemma PrependPrepend<X>(a: seq<X>, b: seq<X>, r: Option<(seq<X>, nat)>)
    ensures Prepend(a, Prepend(b, r)) == Prepend(a + b, r)
  {
    if r.Some? {
      assert a + (b + r.value.0) == (a + b) + r.value.0;
    }
  }

  /** Continues a flat decoding along further (extent, stride) pairs. */
  function ThenDecodeFlat(r: Option<(seq<nat>, nat)>, sizes: seq<nat>, strides: seq<nat>): Option<(seq<nat>, nat)>
  {
    match r
    case None => None
    case Some(p) => Prepend(p.0, DecodeFlat(p.1, sizes, strides))
  }

  /** Decoding a concatenation decodes the first part, then the second from what is left. */
  lemma {:induction false} DecodeFlatAppend(idx: nat, a: seq<nat>, b: seq<nat>, c: seq<nat>, d: seq<nat>)
    requires |a| == |c|
    ensures DecodeFlat(idx, a + b, c + d) == ThenDecodeFlat(DecodeFlat(idx, a, c), b, d)
    decreases |a|, 1
  {
    if a == [] {
      assert a + b == b && c + d == d;
      PrependNil(DecodeFlat(idx, b, d));
    } else {
      var ab, cd := a + b, c + d;
      assert ab[0] == a[0] && cd[0] == c[0];
      assert ab[1..] == a[1..] + b && cd[1..] == c[1..] + d;
      if c[0] != 0 {
        var v := idx / c[0];
        SubDivIsMod(idx, c[0]);
        if v < a[0] {
          DecodeFlatAppendStep(idx, a, b, c, d, v, idx - v * c[0]);
        }
      }
    }
  }

  /** DecodeFlatAppend when the first component v decodes: both sides put v in front of
      decoding what is left along the rest. */
  lemma {:induction false} DecodeFlatAppendStep(idx: nat, a: seq<nat>, b: seq<nat>, c: seq<nat>, d: seq<nat>, v: nat, left: nat)
    requires |a| == |c| && a != [] && c[0] > 0 && v == idx / c[0] && v < a[0] && left == idx - v * c[0]
    ensures DecodeFlat(idx, a + b, c + d) == ThenDecodeFlat(DecodeFlat(idx, a, c), b, d)
    decreases |a|, 0
  {
    var ab, cd := a + b, c + d;
    assert ab[0] == a[0] && cd[0] == c[0];
    assert ab[1..] == a[1..] + b && cd[1..] == c[1..] + d;
    var rest := DecodeFlat(left, a[1..], c[1..]);
    assert DecodeFlat(idx, a, c) == Prepend([v], rest);
    assert DecodeFlat(idx, ab, cd) == Prepend([v], DecodeFlat(left, ab[1..], cd[1..]));
    DecodeFlatAppend(left, a[1..], b, c[1..], d);
    if rest.Some? {
      PrependPrepend([v], rest.value.0, DecodeFlat(rest.value.1, b, d));
    }
  }

  /** Every component a flat decoding produces is below its extent: the `v < sz` check. */
  lemma {:induction false} DecodeFlatInBox(idx: nat, sizes: seq<nat>, strides: seq<nat>)
    ensures var r := DecodeFlat(idx, sizes, strides);
      r.Some? ==> forall k :: 0 <= k < |r.value.0| ==> r.value.0[k] < sizes[k]
  {
    if sizes != [] && strides != [] && strides[0] != 0 {
      var v := idx / strides[0];
      SubDivIsMod(idx, strides[0]);
      if v < sizes[0] {
        var rest := idx - v * strides[0];
        DecodeFlatInBox(rest, sizes[1..], strides[1..]);
        var t := DecodeFlat(rest, sizes[1..], strides[1..]);
        if t.Some? {
          var out := [v] + t.value.0;
          forall k | 1 <= k < |out| ensures out[k] < sizes[k] {
            assert out[k] == t.value.0[k - 1] && sizes[k] == sizes[1..][k - 1];
          }
        }
      }
    }
  }

  /** Over congruent shape and stride trees, a decoded coordinate lies inside the shape. */
  lemma DecodeInBox(idx: nat, shape: Tuple, stride: Tuple)
    ensures var d := Decode(idx, shape, stride);
      Congruent(shape, stride) && d.Some? ==> InShape(d.value.0, shape)
  {
    if Congruent(shape, stride) {
      DecodeFlattens(idx, shape, stride);
      CongruentFlatLen(shape, stride);
      DecodeFlatInBox(idx, Flatten(shape), Flatten(stride));
    }
  }

  /** Over congruent shape and stride trees, decoding the tree is decoding the flattened
      leaves: same success, same remainder, and the coordinate flattens to the flat result. */
  lemma {:induction false} DecodeFlattens(idx: nat, shape: Tuple, stride: Tuple)
    requires Congruent(shape, stride)
    ensures var d, f := Decode(idx, shape, stride), DecodeFlat(idx, Flatten(shape), Flatten(stride));
      d.Some? == f.Some? &&
      (d.Some? ==> d.value.1 == f.value.1 && Flatten(d.value.0) == f.value.0 && Congruent(d.value.0, shape))
    decreases shape, 1
  {
    if shape.Tup? {
      DecodeKidsFlattens(idx, shape.kids, stride.kids);
    }
  }

  lemma {:induction false} DecodeKidsFlattens(idx: nat, ss: seq<Tuple>, ts: seq<Tuple>)
    requires CongruentKids(ss, ts)
    ensures var d, f := DecodeKids(idx, ss, ts), DecodeFlat(idx, FlattenKids(ss), FlattenKids(ts));
      d.Some? == f.Some? &&
      (d.Some? ==> d.value.1 == f.value.1 && FlattenKids(d.value.0) == f.value.0 && CongruentKids(d.value.0, ss))
    decreases ss, 0
  {
    if ss != [] {
      CongruentFlatLen(ss[0], ts[0]);
      DecodeFlatAppend(idx, Flatten(ss[0]), FlattenKids(ss[1..]), Flatten(ts[0]), FlattenKids(ts[1..]));
      DecodeFlattens(idx, ss[0], ts[0]);
      var head := Decode(idx, ss[0], ts[0]);
      if head.Some? {
        DecodeKidsFlattens(head.value.1, ss[1..], ts[1..]);
        var tail := DecodeKids(head.value.1, ss[1..], ts[1..]);
        assert DecodeKids(idx, ss, ts) == Prepend([head.value.0], tail);
        if tail.Some? {
          KidsCons(head.value.0, tail.value.0, ss);
        }
      }
    }
  }

  /** A child congruent with ss[0] in front of children congruent with the rest of ss. */
  lemma KidsCons(h: Tuple, t: seq<Tuple>, ss: seq<Tuple>)
    requires ss != [] && Congruent(h, ss[0]) && CongruentKids(t, ss[1..])
    ensures CongruentKids([h] + t, ss)
    ensures FlattenKids([h] + t) == Flatten(h) + FlattenKids(t)
  {
    var kids := [h] + t;
    assert kids[1..] == t;
    forall i | 1 <= i < |kids| ensures Congruent(kids[i], ss[i]) {
      assert kids[i] == t[i - 1] && ss[i] == ss[1..][i - 1];
    }
  }

  /** Flat round trip: under row-major strides every index below the product of the extents
      decodes, consuming the whole index, to a coordinate whose dot product gives it back. */
  lemma {:induction false} FlatRowMajorRoundTrip(s: seq<nat>, i: nat)
    requires i < Product(s)
    ensures var r := DecodeFlat(i, s, RowMajorFlat(s));
      r.Some? && r.value.1 == 0 && |r.value.0| == |s| && FlatDot(r.value.0, RowMajorFlat(s)) == i
  {
    if s != [] {
      var p, st := Product(s[1..]), RowMajorFlat(s);
      RowMajorFlatTail(s);
      ProductCons(s, 0);
      assert s[0..] == s;
      var v := i / p;
      DivBelow(i, s[0], p);
      SubDivIsMod(i, p);
      var rest := i - v * p;
      FlatRowMajorRoundTrip(s[1..], rest);
      var r := DecodeFlat(rest, s[1..], st[1..]);
      DecodeFlatStep(i, s, st, v, rest);
      assert FlatDot([v] + r.value.0, st) == v * p + FlatDot(r.value.0, st[1..]) by {
        assert ([v] + r.value.0)[1..] == r.value.0;
      }
    }
  }

  /** One step of flat decoding: a positive first stride st[0] yields the quotient v when it
      is below the first extent, and decoding goes on from the remainder. */
  lemma DecodeFlatStep(i: nat, s: seq<nat>, st: seq<nat>, v: nat, rest: nat)
    requires s != [] && st != [] && st[0] > 0 && v == i / st[0] && rest == i - v * st[0] && v < s[0]
    ensures DecodeFlat(i, s, st) == Prepend([v], DecodeFlat(rest, s[1..], st[1..]))
  {
  }

  /** Round trip of idx2crd and crd2idx: under a row-major layout every index in [0, size)
      decodes to a coordinate congruent with the stride whose offset is that index. */
  lemma {:induction false} RoundTrip(shape: Tuple, i: nat)
    requires i < Size(shape)
    ensures var l := RowMajorLayout(shape); var c := DecodeIndex(l, i);
      c.Some? && Congruent(c.value, l.stride) && Crd2Idx(l, c.value) == i
  {
    var stride := RowMajor(shape);
    RowMajorFlattens(shape);
    CongruentSymmetric(stride, shape);
    DecodeFlattens(i, shape, stride);
    FlatRowMajorRoundTrip(Flatten(shape), i);
    var d := Decode(i, shape, stride);
    var crd := d.value.0;
    CongruentTransitive(crd, shape, stride);
    DotFlatten(crd, stride);
  }

  /** Flat out-of-range: under row-major strides an index at or past the product of a
      non-empty list of extents is refused, by a zero stride or by the first component
      not being below its extent. */
  lemma FlatRowMajorOutOfRange(s: seq<nat>, i: nat)
    requires s != [] && i >= Product(s)
    ensures DecodeFlat(i, s, RowMajorFlat(s)).None?
  {
    var p := Product(s[1..]);
    RowMajorFlatTail(s);
    ProductCons(s, 0);
    assert s[0..] == s;
    if p > 0 {
      DivAtLeast(i, s[0], p);
    }
  }

  /** idx2crd under a row-major layout succeeds exactly on the indices below the size; the
      one exception is a shape without any extent, whose loop never runs and so accepts
      every index. */
  lemma DecodeInRange(shape: Tuple, i: nat)
    ensures DecodeIndex(RowMajorLayout(shape), i).Some? <==> i < Size(shape) || Flatten(shape) == []
  {
    var stride := RowMajor(shape);
    RowMajorFlattens(shape);
    CongruentSymmetric(stride, shape);
    DecodeFlattens(i, shape, stride);
    if i < Size(shape) {
      RoundTrip(shape, i);
    } else if Flatten(shape) != [] {
      FlatRowMajorOutOfRange(Flatten(shape), i);
    }
  }

  /** A coordinate lies in a shape: it branches like the shape and every leaf component is
      below the matching extent. */
  predicate InShape(crd: Tuple, shape: Tuple)
  {
    Congruent(crd, shape) && |Flatten(crd)| == |Flatten(shape)| &&
    forall k :: 0 <= k < |Flatten(crd)| ==> Flatten(crd)[k] < Flatten(shape)[k]
  }

  lemma RowMajorFlatTail(s: seq<nat>)
    requires s != []
    ensures RowMajorFlat(s)[0] == Product(s[1..])
    ensures RowMajorFlat(s)[1..] == RowMajorFlat(s[1..])
  {
    var st := RowMajorFlat(s);
    forall j | 0 <= j < |s| - 1 ensures st[1..][j] == RowMajorFlat(s[1..])[j] {
      assert s[1..][j + 1..] == s[j + 2..];
    }
  }

  /** The row-major offset of a coordinate: its first component times the product of the
      remaining extents, plus the row-major offset of the rest. */
  lemma RowMajorDotCons(s: seq<nat>, vs: seq<nat>)
    requires s != [] && |vs| == |s|
    ensures FlatDot(vs, RowMajorFlat(s)) == vs[0] * Product(s[1..]) + FlatDot(vs[1..], RowMajorFlat(s[1..]))
  {
    RowMajorFlatTail(s);
  }

  /** A coordinate inside the extents encodes, under row-major strides, below their product. */
  lemma {:induction false} FlatRowMajorBound(s: seq<nat>, vs: seq<nat>)
    requires |vs| == |s| && forall k :: 0 <= k < |s| ==> vs[k] < s[k]
    ensures FlatDot(vs, RowMajorFlat(s)) < Product(s)
  {
    if s != [] {
      var p := Product(s[1..]);
      RowMajorDotCons(s, vs);
      FlatRowMajorBound(s[1..], vs[1..]);
      MulMonotone(vs[0] + 1, s[0], p);
      assert (vs[0] + 1) * p == vs[0] * p + p;
    }
  }

  /** Flat encode-then-decode: an in-bounds coordinate decodes back from its row-major
      offset with nothing left over. */
  lemma {:induction false} FlatRowMajorEncodeDecode(s: seq<nat>, vs: seq<nat>)
    requires |vs| == |s| && forall k :: 0 <= k < |s| ==> vs[k] < s[k]
    ensures DecodeFlat(FlatDot(vs, RowMajorFlat(s)), s, RowMajorFlat(s)) == Some((vs, 0))
  {
    if s != [] {
      var st := RowMajorFlat(s);
      RowMajorFlatTail(s);
      RowMajorDotCons(s, vs);
      FlatRowMajorBound(s[1..], vs[1..]);
      FlatRowMajorEncodeDecode(s[1..], vs[1..]);
      var rest := FlatDot(vs[1..], st[1..]);
      var idx := FlatDot(vs, st);
      DivModUnique(idx, vs[0], rest, st[0]);
      DecodeFlatStep(idx, s, st, vs[0], rest);
      assert [vs[0]] + vs[1..] == vs;
    }
  }

  /** Encode-then-decode under a row-major layout: every coordinate inside the shape maps to
      an index below the size, and idx2crd recovers exactly that coordinate. */
  lemma {:induction false} EncodeDecode(shape: Tuple, crd: Tuple)
    requires InShape(crd, shape)
    ensures var l := RowMajorLayout(shape);
      Congruent(crd, l.stride) && Crd2Idx(l, crd) < Size(shape) &&
      DecodeIndex(l, Crd2Idx(l, crd)) == Some(crd)
  {
    var stride := RowMajor(shape);
    RowMajorFlattens(shape);
    CongruentSymmetric(stride, shape);
    CongruentTransitive(crd, shape, stride);
    DotFlatten(crd, stride);
    var i := Dot(crd, stride);
    FlatRowMajorBound(Flatten(shape), Flatten(crd));
    FlatRowMajorEncodeDecode(Flatten(shape), Flatten(crd));
    DecodeFlattens(i, shape, stride);
    var d := Decode(i, shape, stride).value.0;
    CongruentSymmetric(crd, shape);
    CongruentTransitive(d, shape, crd);
    CongruentFlattenEqual(d, crd);
  }

  /** crd2idx is one-to-one on the coordinates inside the shape of a row-major layout. */
  lemma Crd2IdxInjective(shape: Tuple, a: Tuple, b: Tuple)
    requires InShape(a, shape) && InShape(b, shape)
    ensures Congruent(a, RowMajor(shape)) && Congruent(b, RowMajor(shape))
    ensures Crd2Idx(RowMajorLayout(shape), a) == Crd2Idx(RowMajorLayout(shape), b) <==> a == b
  {
    EncodeDecode(shape, a);
    EncodeDecode(shape, b);
  }

  /* ---------- cosize ---------- */

  /** What cosize demands so that no `extent - 1` underflows: every extent it reads, along the
      last-child path, is at least one. */
  predicate CosizeFits(shape: Tuple, stride: Tuple)
  {
    if shape.Int? && stride.Int? then
      forall k :: 0 <= k < |shape.vals| && k < |stride.vals| ==> shape.vals[k] >= 1
    else if shape.Tup? && stride.Tup? && shape.kids != [] && stride.kids != [] then
      CosizeFits(shape.kids[|shape.kids| - 1], stride.kids[|stride.kids| - 1])
    else true
  }

  /** Sum over zipped pairs of (extent - 1) * stride: the largest offset a leaf reaches. */
  function LastOffset(sizes: seq<nat>, strides: seq<nat>): nat
    requires forall k :: 0 <= k < |sizes| && k < |strides| ==> sizes[k] >= 1
  {
    if sizes == [] || strides == [] then 0
    else (sizes[0] - 1) * strides[0] + LastOffset(sizes[1..], strides[1..])
  }

  /** cosize of a shape/stride pair: a leaf gives its largest offset plus one; a branch
      resolves to its last child only; an empty branch or a leaf/branch mismatch fails. */
  function CosizeOf(shape: Tuple, stride: Tuple): (r: Option<nat>)
    requires CosizeFits(shape, stride)
    ensures r.Some? ==> r.value >= 1
    ensures shape.Int? != stride.Int? ==> r.None?
  {
    if shape.Int? && stride.Int? then Some(LastOffset(shape.vals, stride.vals) + 1)
    else if shape.Tup? && stride.Tup? then
      if shape.kids == [] || stride.kids == [] then None
      else CosizeOf(shape.kids[|shape.kids| - 1], stride.kids[|stride.kids| - 1])
    else None
  }

  function Cosize(l: Layout): (r: Option<nat>)
    requires CosizeFits(l.shape, l.stride)
    ensures r.Some? ==> r.value >= 1
    ensures l.shape.Int? != l.stride.Int? ==> r.None?
  {
    CosizeOf(l.shape, l.stride)
  }

  /** The all-last coordinate of a leaf: each component one below its extent. */
  function LastCoord(sizes: seq<nat>): (r: seq<nat>)
    requires forall k :: 0 <= k < |sizes| ==> sizes[k] >= 1
    ensures |r| == |sizes| && forall k :: 0 <= k < |r| ==> r[k] + 1 == sizes[k]
  {
    seq(|sizes|, k requires 0 <= k < |sizes| => sizes[k] - 1)
  }

  /** On a leaf, cosize is one past the largest offset: every in-bounds coordinate lands
      below it and the all-last coordinate lands exactly on cosize - 1. */
  lemma {:induction false} LeafCosizeIsMaxOffset(sizes: seq<nat>, strides: seq<nat>, vs: seq<nat>)
    requires |sizes| == |strides| == |vs|
    requires forall k :: 0 <= k < |sizes| ==> vs[k] < sizes[k]
    ensures CosizeFits(Int(sizes), Int(strides))
    ensures FlatDot(vs, strides) < Cosize(Layout(Int(sizes), Int(strides))).value
    ensures FlatDot(LastCoord(sizes), strides) + 1 == Cosize(Layout(Int(sizes), Int(strides))).value
  {
    if sizes != [] {
      LeafCosizeIsMaxOffset(sizes[1..], strides[1..], vs[1..]);
      assert LastCoord(sizes)[1..] == LastCoord(sizes[1..]);
      MulMonotone(vs[0], sizes[0] - 1, strides[0]);
    }
  }

  /** For row-major strides over positive extents, cosize equals size: the layout is dense. */
  lemma {:induction false} RowMajorLeafCosize(sizes: seq<nat>)
    requires forall k :: 0 <= k < |sizes| ==> sizes[k] >= 1
    ensures Product(sizes) >= 1
    ensures Cosize(Layout(Int(sizes), Int(RowMajorFlat(sizes)))) == Some(Product(sizes))
  {
    if sizes != [] {
      RowMajorFlatTail(sizes);
      RowMajorLeafCosize(sizes[1..]);
      var p := Product(sizes[1..]);
      assert LastOffset(sizes, RowMajorFlat(sizes)) == (sizes[0] - 1) * p + LastOffset(sizes[1..], RowMajorFlat(sizes[1..]));
      assert (sizes[0] - 1) * p == sizes[0] * p - p;
      MulMonotone(1, sizes[0], p);
    }
  }

  /** cosize looks only at the last child: under the row-major layout of (2,(3,4)), whose
      size is 24 and whose strides are (12,(4,1)), it follows the last child twice down to the
      leaf (4) with stride (1) and reports 4. */
  lemma LastChildCosizeExample()
    ensures var l := RowMajorLayout(Tup([Int([2]), Tup([Int([3]), Int([4])])]));
      CosizeFits(l.shape, l.stride) && Cosize(l) == Some(4) && LayoutSize(l) == 24
  {
    var inner, inner' := [Int([3]), Int([4])], [Int([4]), Int([1])];
    var shape := Tup([Int([2]), Tup(inner)]);
    var stride := Tup([Int([12]), Tup(inner')]);
    HierarchicalRowMajorExample();
    assert CosizeOf(Int([4]), Int([1])) == Some(4) by {
      assert LastOffset([4], [1]) == 3 * 1 + LastOffset([], []);
    }
    assert CosizeFits(Tup(inner), Tup(inner')) && CosizeOf(Tup(inner), Tup(inner')) == Some(4);
    assert CosizeFits(shape, stride) && CosizeOf(shape, stride) == Some(4);
    NestedSizeExample();
  }

  /** The shape (2,(3,4)) flattens to (2,3,4) and describes 24 elements. */
  lemma NestedSizeExample()
    ensures Flatten(Tup([Int([2]), Tup([Int([3]), Int([4])])])) == [2, 3, 4]
    ensures Size(Tup([Int([2]), Tup([Int([3]), Int([4])])])) == 24
  {
    var inner := [Int([3]), Int([4])];
    var shape := Tup([Int([2]), Tup(inner)]);
    assert FlattenKids(inner) == [3, 4] by { assert inner[1..][1..] == []; }
    assert Flatten(shape) == [2] + FlattenKids([Tup(inner)]) by {
      assert Flatten(shape) == FlattenKids(shape.kids);
      assert FlattenKids(shape.kids) == Flatten(Int([2])) + FlattenKids(shape.kids[1..]);
      assert shape.kids[1..] == [Tup(inner)];
    }
    assert FlattenKids([Tup(inner)]) == [3, 4] + FlattenKids([]);
    assert Product([4]) == 4 * Product([]);
    assert Product([3, 4]) == 3 * Product([4]) by { assert [3, 4][1..] == [4]; }
    assert Product([2, 3, 4]) == 2 * Product([3, 4]) by { assert [2, 3, 4][1..] == [3, 4]; }
  }
}
