/** Tensors and views. A tensor owns a buffer of exactly `size` elements together with a
    layout; a view is a base offset into some tensor's buffer plus a layout, and reading or
    writing element `crd` of a view touches the buffer at `offset + crd2idx(crd)`. A subview
    moves the offset by the start coordinate's offset and keeps the parent's stride, so it
    addresses the same buffer and copies nothing. The library's read-only and mutable views
    differ only in what the borrow checker lets a caller do, so one `View` models both. */
module Tensors {
  import opened Options
  import opened Nested
  import opened Layouts

  /** A view: where its element 0 sits in the buffer, and how coordinates map to offsets. */
  datatype View = View(offset: nat, layout: Layout)

  class Tensor<T> {
    const data: array<T>
    const layout: Layout

    /** A tensor whose buffer holds the given elements; the buffer must be exactly as long
        as the layout's size. */
    constructor (elems: seq<T>, l: Layout)
      requires |elems| == LayoutSize(l)
      ensures data[..] == elems && layout == l && fresh(data)
    {
      data := new T[|elems|](i requires 0 <= i < |elems| => elems[i]);
      layout := l;
    }

    /** The buffer length matches the layout's size. */
    predicate Valid()
    {
      data.Length == LayoutSize(layout)
    }

    /** A view of the whole tensor: offset 0 and the tensor's own layout. */
    function AsView(): (v: View)
      ensures v.offset == 0 && v.layout == layout
      ensures Valid() ==> LayoutSize(v.layout) == data.Length
    {
      View(0, layout)
    }
  }

  /** Tensor::new: a tensor over `elems`, refused when the element count differs from the
      layout's size. */
  method NewTensor<T>(elems: seq<T>, l: Layout) returns (t: Option<Tensor<T>>)
    ensures t.Some? <==> |elems| == LayoutSize(l)
    ensures t.Some? ==> (fresh(t.value) && fresh(t.value.data) && t.value.Valid() &&
                         t.value.data[..] == elems && t.value.layout == l)
  {
    if |elems| != LayoutSize(l) {
      return None;
    }
    var x := new Tensor(elems, l);
    return Some(x);
  }

  /** Where element `crd` of a view lives in the buffer. */
  function Address(v: View, crd: Tuple): nat
    requires Congruent(crd, v.layout.stride)
  {
    v.offset + Crd2Idx(v.layout, crd)
  }

  /** get: the element at `crd` of a view over `buf`. */
  function Get<T>(buf: array<T>, v: View, crd: Tuple): (x: T)
    requires Congruent(crd, v.layout.stride) && Address(v, crd) < buf.Length
    reads buf
    ensures x == buf[v.offset + Dot(crd, v.layout.stride)]
  {
    buf[Address(v, crd)]
  }

  /** A write through get_mut: element `crd` of the view becomes x, nothing else changes. */
  method Set<T>(buf: array<T>, v: View, crd: Tuple, x: T)
    requires Congruent(crd, v.layout.stride) && Address(v, crd) < buf.Length
    modifies buf
    ensures Get(buf, v, crd) == x
    ensures forall i :: 0 <= i < buf.Length && i != Address(v, crd) ==> buf[i] == old(buf[i])
  {
    buf[Address(v, crd)] := x;
  }

  /** subview: the window of shape `subshape` whose origin is `start` in the parent. */
  function Subview(v: View, start: Tuple, subshape: Tuple): (s: View)
    requires Congruent(start, v.layout.stride)
    ensures s.offset == Address(v, start)
    ensures s.layout == Layout(subshape, v.layout.stride)
  {
    View(v.offset + Crd2Idx(v.layout, start), WithShapeStride(subshape, v.layout.stride))
  }

  /** subview_2d: the r x c window at row r0, column c0 of a two-mode view. */
  function Subview2D(v: View, r0: nat, c0: nat, r: nat, c: nat): (s: View)
    requires Congruent(Tup([Int([r0]), Int([c0])]), v.layout.stride)
    ensures var st := v.layout.stride;
      st.Tup? && |st.kids| == 2 && st.kids[0].Int? && st.kids[1].Int? &&
      |st.kids[0].vals| == 1 && |st.kids[1].vals| == 1 &&
      s.offset == v.offset + r0 * st.kids[0].vals[0] + c0 * st.kids[1].vals[0]
    ensures s.layout == Layout(Tup([Int([r]), Int([c])]), v.layout.stride)
  {
    var st, crd := v.layout.stride, Tup([Int([r0]), Int([c0])]);
    assert Congruent(crd.kids[0], st.kids[0]) && Congruent(crd.kids[1], st.kids[1]);
    var p, q := st.kids[0].vals[0], st.kids[1].vals[0];
    assert st.kids[0].vals == [p] && st.kids[1].vals == [q];
    assert st.kids == [Int([p]), Int([q])];
    DotPair(r0, c0, p, q);
    Subview(v, Tup([Int([r0]), Int([c0])]), Tup([Int([r]), Int([c])]))
  }

  /* ---------- properties ---------- */

  /** Through a subview at `start`, element `crd` is the parent's element at start + crd:
      the offset map is linear, so shifting the origin shifts every address the same way. */
  lemma SubviewElement(v: View, start: Tuple, subshape: Tuple, crd: Tuple)
    requires Congruent(start, v.layout.stride) && Congruent(crd, v.layout.stride) && Congruent(start, crd)
    ensures var s := Subview(v, start, subshape);
      Congruent(crd, s.layout.stride) && Congruent(Add(start, crd), v.layout.stride) &&
      Address(s, crd) == Address(v, Add(start, crd))
  {
    CongruentSymmetric(crd, v.layout.stride);
    CongruentTransitive(start, v.layout.stride, crd);
    CongruentTransitive(Add(start, crd), start, v.layout.stride);
    DotLinear(start, crd, v.layout.stride);
  }

  /** A subview's size is the size of its subshape, whatever the parent. */
  lemma SubviewSize(v: View, start: Tuple, subshape: Tuple)
    requires Congruent(start, v.layout.stride)
    ensures LayoutSize(Subview(v, start, subshape).layout) == Size(subshape)
  {
  }

  /** A view of a row-major tensor reaches, for every coordinate inside its shape, exactly the
      element at that coordinate's row-major index, and that index is inside the buffer. */
  lemma AsViewInBounds<T>(t: Tensor<T>, crd: Tuple)
    requires t.Valid() && t.layout == RowMajorLayout(t.layout.shape) && InShape(crd, t.layout.shape)
    ensures Congruent(crd, t.AsView().layout.stride) && Address(t.AsView(), crd) < t.data.Length
  {
    EncodeDecode(t.layout.shape, crd);
  }

  /** The offset of a two-mode coordinate (x, y) under a two-mode stride (p, q). */
  lemma DotPair(x: nat, y: nat, p: nat, q: nat)
    ensures Congruent(Tup([Int([x]), Int([y])]), Tup([Int([p]), Int([q])]))
    ensures Dot(Tup([Int([x]), Int([y])]), Tup([Int([p]), Int([q])])) == x * p + y * q
  {
    var a, b := [Int([x]), Int([y])], [Int([p]), Int([q])];
    assert a[1..] == [Int([y])] && b[1..] == [Int([q])];
    assert a[1..][1..] == [] && b[1..][1..] == [];
    assert [x][1..] == [] && [p][1..] == [] && [y][1..] == [] && [q][1..] == [];
    assert Dot(a[0], b[0]) == FlatDot([x], [p]) == x * p + FlatDot([], []);
    assert Dot(a[1], b[1]) == FlatDot([y], [q]) == y * q + FlatDot([], []);
    assert DotKids(a[1..], b[1..]) == Dot(a[1], b[1]) + DotKids([], []);
  }

  /** subview_2d of a row-major rows x cols view: the r x c window at (r0, c0) starts at
      r0 * cols + c0 and keeps the parent's strides (cols, 1), whatever the window's size. */
  lemma Subview2DRowMajor(rows: nat, cols: nat, r0: nat, c0: nat, r: nat, c: nat)
    ensures var v := View(0, RowMajorLayout(Tup([Int([rows]), Int([cols])])));
      Congruent(Tup([Int([r0]), Int([c0])]), v.layout.stride) &&
      Subview2D(v, r0, c0, r, c) ==
        View(r0 * cols + c0, Layout(Tup([Int([r]), Int([c])]), Tup([Int([cols]), Int([1])])))
  {
    RowMajorPairExample(rows, cols);
    DotPair(r0, c0, cols, 1);
  }

  /** The 1x1 subview at (1,1) of a row-major 3x3 view starts at the parent's element
      ((1),(1)), offset 4, so a write through it is what the parent then reads there. */
  lemma Subview2DExample3x3()
    ensures var v3 := View(0, RowMajorLayout(Tup([Int([3]), Int([3])])));
      Congruent(Tup([Int([1]), Int([1])]), v3.layout.stride) &&
      Subview2D(v3, 1, 1, 1, 1).offset == Address(v3, Tup([Int([1]), Int([1])])) &&
      Subview2D(v3, 1, 1, 1, 1).offset == 4
  {
    Subview2DRowMajor(3, 3, 1, 1, 1, 1);
  }

  /** The 2x2 subview at (1,1) of a row-major 4x4 view has shape (2,2), size 4, and starts
      at offset 5. */
  lemma Subview2DExample4x4()
    ensures var v4 := View(0, RowMajorLayout(Tup([Int([4]), Int([4])])));
      Congruent(Tup([Int([1]), Int([1])]), v4.layout.stride) &&
      Subview2D(v4, 1, 1, 2, 2).layout.shape == Tup([Int([2]), Int([2])]) &&
      LayoutSize(Subview2D(v4, 1, 1, 2, 2).layout) == 4 &&
      Subview2D(v4, 1, 1, 2, 2).offset == 5
  {
    Subview2DRowMajor(4, 4, 1, 1, 2, 2);
    var k := [Int([2]), Int([2])];
    assert k[1..] == [Int([2])] && k[1..][1..] == [];
    assert Flatten(Tup(k)) == [2, 2];
    assert Product([2, 2]) == 2 * Product([2]) by { assert [2, 2][1..] == [2]; }
    assert Product([2]) == 2 * Product([]);
  }

  /** An N-D subview of shape (1,2,3) has size 6. */
  lemma SubviewNDExample(v: View)
    requires Congruent(Tup([Int([1]), Int([1]), Int([1])]), v.layout.stride)
    ensures LayoutSize(Subview(v, Tup([Int([1]), Int([1]), Int([1])]), Tup([Int([1]), Int([2]), Int([3])])).layout) == 6
  {
    var k := [Int([1]), Int([2]), Int([3])];
    assert k[1..][1..][1..] == [];
    assert Flatten(Tup(k)) == [1, 2, 3];
  }

  /** Writing through a subview at `start` is seen by the parent at start + crd. */
  method WriteThroughSubview<T>(buf: array<T>, v: View, start: Tuple, subshape: Tuple, crd: Tuple, x: T)
    requires Congruent(start, v.layout.stride) && Congruent(crd, v.layout.stride) && Congruent(start, crd)
    requires Address(Subview(v, start, subshape), crd) < buf.Length
    modifies buf
    ensures Congruent(Add(start, crd), v.layout.stride) && Address(v, Add(start, crd)) < buf.Length
    ensures Get(buf, v, Add(start, crd)) == x
  {
    var s := Subview(v, start, subshape);
    SubviewElement(v, start, subshape, crd);
    Set(buf, s, crd, x);
  }
}
