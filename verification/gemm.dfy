/** Lowering a GEMM on tensor views to a BLAS call. Each operand must be a two-dimensional
    dense layout: a unit inner stride is read as row-major with the outer stride as the
    leading dimension, a unit outer stride as column-major, passed transposed, with the inner
    stride as the leading dimension. The extents and leading dimensions are handed to the
    backend as 32-bit signed integers. The backend's multiplication itself is not part of
    this model: `GemmF32` returns the arguments of the call it would make, or None where the
    library panics. */
module Gemm {
  import opened Options
  import opened Nested
  import opened Layouts

  datatype Transpose = NoTrans | Trans

  /** The arguments gemm_f32 hands the backend (alpha 1.0 and beta 0.0 are fixed). */
  datatype GemmCall = GemmCall(ta: Transpose, tb: Transpose, m: int, n: int, k: int, lda: int, ldb: int, ldc: int)

  const TwoTo31: nat := 0x8000_0000
  const TwoTo32: nat := 0x1_0000_0000

  /** `x as i32` for a usize x: the low 32 bits read as a two's-complement number. */
  function AsI32(x: nat): (r: int)
    ensures -(TwoTo31 as int) <= r < TwoTo31
    ensures (x - r) % TwoTo32 == 0
    ensures x < TwoTo31 ==> r == x
  {
    var w := x % TwoTo32;
    if w < TwoTo31 then w else w - TwoTo32
  }

  /** lower_matrix: None where the library panics (not two flattened dimensions, or
      neither stride 1). A unit inner stride wins when both strides are 1. */
  function LowerMatrix(l: Layout): (r: Option<(int, Transpose)>)
    ensures r.Some? <==> FlatLen(l.shape) == 2 && FlatLen(l.stride) >= 2 &&
                         (FlatAt(l.stride, 0) == 1 || FlatAt(l.stride, 1) == 1)
    ensures r.Some? ==> FlatLen(l.stride) >= 2 && -(TwoTo31 as int) <= r.value.0 < TwoTo31 &&
                        (r.value.1 == NoTrans <==> FlatAt(l.stride, 1) == 1)
  {
    if FlatLen(l.shape) != 2 || FlatLen(l.stride) < 2 then None
    else
      var s0, s1 := FlatAt(l.stride, 0), FlatAt(l.stride, 1);
      if s1 == 1 then Some((AsI32(s0), NoTrans))
      else if s0 == 1 then Some((AsI32(s1), Trans))
      else None
  }

  /** gemm_f32: the call made for C = A * B, or None where an assertion fails: every
      operand two-dimensional, A (m,k), B (k,n), C (m,n) compared after the i32 cast, all three
      contiguous; ldc is C's first flattened stride. */
  function GemmF32(a: Layout, b: Layout, c: Layout): (r: Option<GemmCall>)
    ensures r.Some? ==> IsContiguous(a) && IsContiguous(b) && IsContiguous(c)
    ensures r.Some? ==> r.value.ta == NoTrans && r.value.tb == NoTrans
  {
    if FlatLen(a.shape) != 2 || FlatLen(b.shape) != 2 || FlatLen(c.shape) != 2 then None
    else
      var m, k, n := AsI32(FlatAt(a.shape, 0)), AsI32(FlatAt(a.shape, 1)), AsI32(FlatAt(b.shape, 1));
      if AsI32(FlatAt(b.shape, 0)) != k || AsI32(FlatAt(c.shape, 0)) != m || AsI32(FlatAt(c.shape, 1)) != n then None
      else if !IsContiguous(a) || !IsContiguous(b) || !IsContiguous(c) then None
      else
        LowerContiguous(a);
        LowerContiguous(b);
        var la, lb := LowerMatrix(a), LowerMatrix(b);
        if la.None? || lb.None? || FlatLen(c.stride) == 0 then None
        else Some(GemmCall(la.value.1, lb.value.1, m, n, k, la.value.0, lb.value.0, AsI32(FlatAt(c.stride, 0))))
  }

  /* ---------- properties ---------- */

  /** lower_matrix on a 2x2 shape: stride (2,1) is row-major with leading dimension 2;
      (1,2) is column-major, transposed; (1,1) takes the row-major branch; (4,2) is not
      dense and (2,2,2) is not two-dimensional, and both are refused. */
  lemma LowerMatrixExamples()
    ensures LowerMatrix(Layout(Int([2, 2]), Int([2, 1]))) == Some((2, NoTrans))
    ensures LowerMatrix(Layout(Int([2, 2]), Int([1, 2]))) == Some((2, Trans))
    ensures LowerMatrix(Layout(Int([2, 2]), Int([1, 1]))) == Some((1, NoTrans))
    ensures LowerMatrix(Layout(Int([2, 2]), Int([4, 2]))) == None
    ensures LowerMatrix(Layout(Int([2, 2, 2]), Int([4, 2, 1]))) == None
  {
  }

  /** A contiguous (dense row-major) two-dimensional layout of shape (r, c) lowers to
      leading dimension c without transposition. */
  lemma LowerContiguous(l: Layout)
    requires IsContiguous(l) && FlatLen(l.shape) == 2
    ensures FlatLen(l.stride) == 2
    ensures LowerMatrix(l) == Some((AsI32(FlatAt(l.shape, 1)), NoTrans))
  {
    var s := Flatten(l.shape);
    assert s[2..] == [] && s[1..][1..] == [];
    assert RowMajorFlat(s)[1] == Product(s[2..]) == 1;
    assert RowMajorFlat(s)[0] == Product(s[1..]) == s[1] * Product([]);
  }

  /** A dense column-major layout of shape (r, c) with r > 1 lowers to leading dimension r,
      transposed; with r = 1 both strides are 1 and the unit inner stride wins. */
  lemma LowerColumnMajor(l: Layout)
    requires FlatLen(l.shape) == 2 && Flatten(l.stride) == ColMajorFlat(Flatten(l.shape))
    ensures FlatAt(l.shape, 0) != 1 ==> LowerMatrix(l) == Some((AsI32(FlatAt(l.shape, 0)), Trans))
    ensures FlatAt(l.shape, 0) == 1 ==> LowerMatrix(l) == Some((1, NoTrans))
  {
    var s := Flatten(l.shape);
    assert s[..0] == [] && s[..1] == [s[0]] && [s[0]][1..] == [];
    assert ColMajorFlat(s)[0] == Product([]) == 1;
    assert ColMajorFlat(s)[1] == Product([s[0]]) == s[0] * Product([]);
  }

  /** When gemm_f32 makes a call, every operand is contiguous, the extents agree after the
      i32 cast, no operand is transposed, and the leading dimensions are the operands' inner
      extents k, n and n; conversely every such triple of layouts is accepted. */
  lemma GemmAccepts(a: Layout, b: Layout, c: Layout)
    ensures GemmF32(a, b, c).Some? <==>
      (FlatLen(a.shape) == 2 && FlatLen(b.shape) == 2 && FlatLen(c.shape) == 2 &&
       AsI32(FlatAt(b.shape, 0)) == AsI32(FlatAt(a.shape, 1)) &&
       AsI32(FlatAt(c.shape, 0)) == AsI32(FlatAt(a.shape, 0)) &&
       AsI32(FlatAt(c.shape, 1)) == AsI32(FlatAt(b.shape, 1)) &&
       IsContiguous(a) && IsContiguous(b) && IsContiguous(c))
    ensures GemmF32(a, b, c).Some? ==>
      GemmF32(a, b, c).value == GemmCall(NoTrans, NoTrans,
        AsI32(FlatAt(a.shape, 0)), AsI32(FlatAt(b.shape, 1)), AsI32(FlatAt(a.shape, 1)),
        AsI32(FlatAt(a.shape, 1)), AsI32(FlatAt(b.shape, 1)), AsI32(FlatAt(c.shape, 1)))
  {
    if FlatLen(a.shape) == 2 && FlatLen(b.shape) == 2 && FlatLen(c.shape) == 2 &&
       IsContiguous(a) && IsContiguous(b) && IsContiguous(c) {
      LowerContiguous(a);
      LowerContiguous(b);
      LowerContiguous(c);
      var s := Flatten(c.shape);
      assert s[1..][1..] == [];
      assert RowMajorFlat(s)[0] == Product(s[1..]) == s[1] * Product([]);
    }
  }

  /** The dispatch test: 2x2 row-major A, B and C lower to m = n = k = 2 with positive
      leading dimensions. */
  lemma GemmDispatchExample()
    ensures var l := RowMajorLayout(Int([2, 2]));
      GemmF32(l, l, l) == Some(GemmCall(NoTrans, NoTrans, 2, 2, 2, 2, 2, 2))
  {
    var l := RowMajorLayout(Int([2, 2]));
    RowMajorIsContiguous(Int([2, 2]));
    GemmAccepts(l, l, l);
  }
}
