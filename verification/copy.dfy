/** Copying one tensor view into another. Shapes must agree. When both layouts are dense
    row-major the copy is one block move of `size` elements; otherwise every coordinate of
    the box is visited in lexicographic order by nested loops, one per dimension, and the
    destination element at that coordinate receives the source element there. The
    coordinate prefix is a stack pushed before and popped after each nested call. */
module Copy {
  import opened Nested
  import opened Arith
  import opened Odometer
  import opened Layouts
  import opened Tensors

  /* ---------- the lexicographic enumeration of a box ---------- */

  /** The k-th coordinate of the box `dims` in lexicographic order (last dimension fastest). */
  function Lex(dims: seq<nat>, k: nat): (c: seq<nat>)
    requires k < Product(dims)
    ensures |c| == |dims|
  {
    ProductMeansPositive(dims);
    Digits(dims, k)
  }

  /** Every coordinate of the box, in lexicographic order. */
  function LexAll(dims: seq<nat>): (cs: seq<seq<nat>>)
    ensures |cs| == Product(dims)
  {
    seq(Product(dims), k requires 0 <= k < Product(dims) => Lex(dims, k))
  }

  /** Encoding a coordinate with a leading digit i adds i times the number of coordinates of
      the remaining dimensions. */
  lemma {:induction false} EncodeCons(a: nat, r: seq<nat>, i: nat, c: seq<nat>)
    requires |c| == |r|
    ensures Encode([a] + r, [i] + c) == i * Product(r) + Encode(r, c)
    decreases |r|
  {
    if r == [] {
      assert [a] + r == [a] && [i] + c == [i];
      assert [a][..0] == [];
    } else {
      var n := |r| - 1;
      var ar, ic := [a] + r, [i] + c;
      assert ar[..n + 1] == [a] + r[..n] && ic[..n + 1] == [i] + c[..n];
      EncodeCons(a, r[..n], i, c[..n]);
      ProductLast(r);
      ShiftPlace(i, Product(r[..n]), Encode(r[..n], c[..n]), r[n], c[n]);
    }
  }

  /** A leading extent a multiplies the number of coordinates. */
  lemma LeadingExtent(a: nat, r: seq<nat>)
    ensures Product([a] + r) == a * Product(r)
  {
    assert ([a] + r)[1..] == r;
  }

  /** The coordinates of the box [a] + r come in a blocks, the i-th being i followed by every
      coordinate of r. */
  lemma LexCons(a: nat, r: seq<nat>, i: nat, x: nat)
    requires i < a && x < Product(r)
    ensures i * Product(r) + x < Product([a] + r)
    ensures Lex([a] + r, i * Product(r) + x) == [i] + Lex(r, x)
  {
    BlockBelow(a, r, i, x);
    ProductMeansPositive(r);
    var c := Lex(r, x);
    DigitsInRange(r, x);
    EncodeDigits(r, x);
    EncodeCons(a, r, i, c);
    InRangeCons(a, r, i, c);
    DigitsEncode([a] + r, [i] + c);
    var k := i * Product(r) + x;
    assert Encode([a] + r, [i] + c) == k;
    assert Lex([a] + r, k) == Digits([a] + r, k);
  }

  /** The x-th coordinate of the i-th block is a coordinate of the box [a] + r. */
  lemma BlockBelow(a: nat, r: seq<nat>, i: nat, x: nat)
    requires i < a && x < Product(r)
    ensures i * Product(r) + x < Product([a] + r)
  {
    LeadingExtent(a, r);
    StepBelow(i, x, Product(r), a);
  }

  /** Putting a digit below a in front of in-range digits of r gives in-range digits of
      [a] + r. */
  lemma InRangeCons(a: nat, r: seq<nat>, i: nat, c: seq<nat>)
    requires i < a && Positive(r) && InRange(r, c)
    ensures Positive([a] + r) && InRange([a] + r, [i] + c)
  {
    var ar, ic := [a] + r, [i] + c;
    forall k | 0 < k < |ar|
      ensures ar[k] == r[k - 1] && ic[k] == c[k - 1]
    {
    }
  }

  /** `calls` lists, each after the prefix `pre`, the first |calls| coordinates of the box. */
  predicate LexStart(calls: seq<seq<nat>>, pre: seq<nat>, dims: seq<nat>)
  {
    |calls| <= Product(dims) &&
    forall k :: 0 <= k < |calls| ==> calls[k] == pre + Lex(dims, k)
  }

  /** `calls` is `cs` with the prefix `pre` put in front of each entry. */
  predicate Prefixed(calls: seq<seq<nat>>, pre: seq<nat>, cs: seq<seq<nat>>)
  {
    |calls| == |cs| && forall k :: 0 <= k < |calls| ==> calls[k] == pre + cs[k]
  }

  /** A box of no dimensions has exactly one coordinate, the empty one. */
  lemma LexEmpty(pre: seq<nat>)
    ensures LexAll([]) == [[]]
    ensures LexStart([pre], pre, []) && Product([]) == 1
  {
    assert Lex([], 0) == [];
    assert pre + [] == pre;
  }

  /** Following the first i blocks of the box [a] + r with the i-th block (i, then every
      coordinate of r) gives the first i + 1 blocks. */
  lemma LexStartExtend(calls: seq<seq<nat>>, sub: seq<seq<nat>>, pre: seq<nat>, a: nat, r: seq<nat>, i: nat)
    requires i < a && LexStart(calls, pre, [a] + r) && |calls| == i * Product(r)
    requires LexStart(sub, pre + [i], r) && |sub| == Product(r)
    ensures LexStart(calls + sub, pre, [a] + r) && |calls + sub| == (i + 1) * Product(r)
  {
    BlockLength(calls, sub, a, r, i);
    BlockEntries(calls, sub, pre, a, r, i);
  }

  lemma BlockLength(calls: seq<seq<nat>>, sub: seq<seq<nat>>, a: nat, r: seq<nat>, i: nat)
    requires i < a && |calls| == i * Product(r) && |sub| == Product(r)
    ensures |calls + sub| <= Product([a] + r) && |calls + sub| == (i + 1) * Product(r)
  {
    NextBlock(i, Product(r), a);
    LeadingExtent(a, r);
  }

  lemma BlockEntries(calls: seq<seq<nat>>, sub: seq<seq<nat>>, pre: seq<nat>, a: nat, r: seq<nat>, i: nat)
    requires i < a && |calls| == i * Product(r) && |calls| + |sub| <= Product([a] + r)
    requires LexStart(calls, pre, [a] + r) && LexStart(sub, pre + [i], r)
    ensures forall k :: 0 <= k < |calls + sub| ==> (calls + sub)[k] == pre + Lex([a] + r, k)
  {
    var all := calls + sub;
    forall k | |calls| <= k < |all|
      ensures all[k] == pre + Lex([a] + r, k)
    {
      LexBlockEntry(sub, pre, a, r, i, |calls|, k - |calls|);
    }
  }

  /** Entry x of the i-th block is coordinate i*Product(r) + x of the box [a] + r. */
  lemma LexBlockEntry(sub: seq<seq<nat>>, pre: seq<nat>, a: nat, r: seq<nat>, i: nat, base: nat, x: nat)
    requires i < a && base == i * Product(r) && LexStart(sub, pre + [i], r) && x < |sub|
    ensures base + x < Product([a] + r)
    ensures sub[x] == pre + Lex([a] + r, base + x)
  {
    LexCons(a, r, i, x);
    assert sub[x] == (pre + [i]) + Lex(r, x);
  }

  /** A complete listing is the whole box. */
  lemma LexStartAll(calls: seq<seq<nat>>, pre: seq<nat>, dims: seq<nat>)
    requires LexStart(calls, pre, dims) && |calls| == Product(dims)
    ensures Prefixed(calls, pre, LexAll(dims))
  {
  }

  lemma PrefixedAppend(a: seq<seq<nat>>, b: seq<seq<nat>>, pre: seq<nat>, x: seq<seq<nat>>, y: seq<seq<nat>>)
    requires Prefixed(a, pre, x) && Prefixed(b, pre, y)
    ensures Prefixed(a + b, pre, x + y)
  {
    forall k | |a| <= k < |a| + |b|
      ensures (a + b)[k] == pre + (x + y)[k]
    {
      assert (a + b)[k] == b[k - |a|];
    }
  }

  /* ---------- the index stack ---------- */

  /** The `idx` / `prefix` vector the recursive walks push onto and pop from. */
  class IndexStack {
    var items: seq<nat>

    constructor ()
      ensures items == []
    {
      items := [];
    }

    method Push(x: nat)
      modifies this
      ensures items == old(items) + [x]
    {
      items := items + [x];
    }

    method Pop()
      requires items != []
      modifies this
      ensures items == old(items)[..|old(items)| - 1]
    {
      items := items[..|items| - 1];
    }
  }

  /* ---------- enumerate_int and enumerate_coords ---------- */

  /** enumerate_int: calls the callback once for every coordinate of dims[d..], each time with
      the prefix extended by that coordinate, in lexicographic order; the callback's
      arguments are returned as `calls`. Pushes and pops balance, so the prefix is as before. */
  method EnumerateInt(dims: seq<nat>, d: nat, prefix: IndexStack) returns (calls: seq<seq<nat>>)
    requires d <= |dims|
    modifies prefix
    ensures prefix.items == old(prefix.items)
    ensures LexStart(calls, old(prefix.items), dims[d..]) && |calls| == Product(dims[d..])
    decreases |dims| - d
  {
    if d == |dims| {
      assert dims[d..] == [];
      LexEmpty(prefix.items);
      calls := [prefix.items];
      return;
    }
    var rest := dims[d + 1..];
    assert dims[d..] == [dims[d]] + rest;
    ghost var pre := prefix.items;
    calls := [];
    for i := 0 to dims[d]
      invariant prefix.items == pre
      invariant LexStart(calls, pre, [dims[d]] + rest) && |calls| == i * Product(rest)
    {
      prefix.Push(i);
      var sub := EnumerateInt(dims, d + 1, prefix);
      prefix.Pop();
      assert prefix.items == pre;
      LexStartExtend(calls, sub, pre, dims[d], rest, i);
      calls := calls + sub;
    }
    LeadingExtent(dims[d], rest);
  }

  /** What enumerate_coords hands the callback: a leaf enumerates its box; a branch runs each
      child in turn from the same prefix, so the children's boxes are listed one after the
      other rather than combined. */
  function CoordsOf(t: Tuple): seq<seq<nat>>
    decreases t, 1
  {
    match t
    case Int(dims) => LexAll(dims)
    case Tup(kids) => CoordsOfKids(kids)
  }

  function CoordsOfKids(kids: seq<Tuple>): seq<seq<nat>>
    decreases kids, 0
  {
    if kids == [] then [] else CoordsOf(kids[0]) + CoordsOfKids(kids[1..])
  }

  /** enumerate_coords: the callback's arguments, each being the prefix extended by a
      coordinate of CoordsOf(shape). */
  method EnumerateCoords(shape: Tuple, prefix: IndexStack) returns (calls: seq<seq<nat>>)
    modifies prefix
    ensures prefix.items == old(prefix.items)
    ensures Prefixed(calls, old(prefix.items), CoordsOf(shape))
    decreases shape, 1
  {
    match shape
    case Int(dims) =>
      calls := EnumerateInt(dims, 0, prefix);
      assert dims[0..] == dims;
      LexStartAll(calls, old(prefix.items), dims);
    case Tup(children) =>
      calls := [];
      for c := 0 to |children|
        invariant prefix.items == old(prefix.items)
        invariant Prefixed(calls, old(prefix.items), CoordsOfKids(children[..c]))
      {
        var sub := EnumerateCoords(children[c], prefix);
        CoordsOfKidsStep(children, c);
        PrefixedAppend(calls, sub, old(prefix.items), CoordsOfKids(children[..c]), CoordsOf(children[c]));
        calls := calls + sub;
      }
      assert children[..|children|] == children;
  }

  /** Splitting the children after child c. */
  lemma CoordsOfKidsStep(kids: seq<Tuple>, c: nat)
    requires c < |kids|
    ensures CoordsOfKids(kids[..c + 1]) == CoordsOfKids(kids[..c]) + CoordsOf(kids[c])
  {
    CoordsOfKidsAppend(kids[..c], [kids[c]]);
    assert kids[..c + 1] == kids[..c] + [kids[c]];
    assert [kids[c]][1..] == [];
  }

  lemma {:induction false} CoordsOfKidsAppend(a: seq<Tuple>, b: seq<Tuple>)
    ensures CoordsOfKids(a + b) == CoordsOfKids(a) + CoordsOfKids(b)
  {
    if a == [] {
      assert a + b == b;
    } else {
      assert (a + b)[1..] == a[1..] + b;
      CoordsOfKidsAppend(a[1..], b);
    }
  }

  /** On (2),(3) enumerate_coords lists (0),(1) and then (0),(1),(2): five coordinates, not
      the six of the product box. */
  lemma CoordsOfExample()
    ensures CoordsOf(Tup([Int([2]), Int([3])])) == [[0], [1], [0], [1], [2]]
  {
    var k := [Int([2]), Int([3])];
    assert k[1..] == [Int([3])] && k[1..][1..] == [];
    assert [2][1..] == [] && [3][1..] == [];
    assert LexAll([2]) == [[0], [1]] by {
      assert Lex([2], 0) == [0] && Lex([2], 1) == [1];
    }
    assert LexAll([3]) == [[0], [1], [2]] by {
      assert Lex([3], 0) == [0] && Lex([3], 1) == [1] && Lex([3], 2) == [2];
    }
  }

  /* ---------- what a copy writes ---------- */

  /** A view whose shape and stride are single leaves of the same length. */
  predicate FlatView(v: View)
  {
    v.layout.shape.Int? && v.layout.stride.Int? && |v.layout.stride.vals| == |v.layout.shape.vals|
  }

  /** The buffer offset of coordinate c through a view with a flat stride. */
  function Addr(v: View, c: seq<nat>): nat
    requires v.layout.stride.Int? && |c| == |v.layout.stride.vals|
  {
    Address(v, Int(c))
  }

  /** Coordinate c addresses an element of a buffer of length len through view v. */
  predicate Fits(v: View, c: seq<nat>, len: nat)
  {
    v.layout.stride.Int? && |c| == |v.layout.stride.vals| && Addr(v, c) < len
  }

  /** Every listed coordinate addresses both buffers. */
  predicate AllFit(sv: View, dv: View, srcLen: nat, dstLen: nat, cs: seq<seq<nat>>)
  {
    forall i :: 0 <= i < |cs| ==> Fits(sv, cs[i], srcLen) && Fits(dv, cs[i], dstLen)
  }

  /** The destination after copying, one coordinate after the other, the source element at
      each coordinate of `coords` into the destination element at that coordinate. */
  function WriteAll<T>(dst: seq<T>, src: seq<T>, sv: View, dv: View, coords: seq<seq<nat>>): (r: seq<T>)
    requires AllFit(sv, dv, |src|, |dst|, coords)
    ensures |r| == |dst|
    decreases |coords|
  {
    if coords == [] then dst
    else WriteAll(dst[Addr(dv, coords[0]) := src[Addr(sv, coords[0])]], src, sv, dv, coords[1..])
  }

  lemma {:induction false} WriteAllAppend<T>(dst: seq<T>, src: seq<T>, sv: View, dv: View, a: seq<seq<nat>>, b: seq<seq<nat>>)
    requires AllFit(sv, dv, |src|, |dst|, a) && AllFit(sv, dv, |src|, |dst|, b)
    ensures AllFit(sv, dv, |src|, |dst|, a + b)
    ensures WriteAll(dst, src, sv, dv, a + b) == WriteAll(WriteAll(dst, src, sv, dv, a), src, sv, dv, b)
    decreases |a|
  {
    if a == [] {
      assert a + b == b;
    } else {
      assert (a + b)[1..] == a[1..] + b;
      var dst' := dst[Addr(dv, a[0]) := src[Addr(sv, a[0])]];
      WriteAllAppend(dst', src, sv, dv, a[1..], b);
    }
  }

  /** An element no coordinate writes keeps its value. */
  lemma {:induction false} WriteAllUntouched<T>(dst: seq<T>, src: seq<T>, sv: View, dv: View, coords: seq<seq<nat>>, p: nat)
    requires AllFit(sv, dv, |src|, |dst|, coords)
    requires p < |dst| && forall i :: 0 <= i < |coords| ==> Addr(dv, coords[i]) != p
    ensures WriteAll(dst, src, sv, dv, coords)[p] == dst[p]
    decreases |coords|
  {
    if coords != [] {
      var dst' := dst[Addr(dv, coords[0]) := src[Addr(sv, coords[0])]];
      WriteAllUntouched(dst', src, sv, dv, coords[1..], p);
    }
  }

  /** The element written for coordinate i holds the source element at that coordinate,
      unless a later coordinate writes the same element. */
  lemma {:induction false} WriteAllLast<T>(dst: seq<T>, src: seq<T>, sv: View, dv: View, coords: seq<seq<nat>>, i: nat)
    requires AllFit(sv, dv, |src|, |dst|, coords) && i < |coords|
    requires forall j :: i < j < |coords| ==> Addr(dv, coords[j]) != Addr(dv, coords[i])
    ensures WriteAll(dst, src, sv, dv, coords)[Addr(dv, coords[i])] == src[Addr(sv, coords[i])]
    decreases |coords|
  {
    var dst' := dst[Addr(dv, coords[0]) := src[Addr(sv, coords[0])]];
    if i == 0 {
      WriteAllUntouched(dst', src, sv, dv, coords[1..], Addr(dv, coords[0]));
    } else {
      WriteAllLast(dst', src, sv, dv, coords[1..], i - 1);
    }
  }

  /* ---------- copy_recursive and tensor_copy ---------- */

  /** Every coordinate of the box, after the given prefix, addresses both buffers. */
  predicate BoxFits(sv: View, dv: View, srcLen: nat, dstLen: nat, pre: seq<nat>, dims: seq<nat>)
  {
    forall k :: 0 <= k < Product(dims) ==> Fits(sv, pre + Lex(dims, k), srcLen) && Fits(dv, pre + Lex(dims, k), dstLen)
  }

  /** Fixing the leading index of the box [a] + r to i leaves a box that still fits. */
  lemma BoxFitsCons(sv: View, dv: View, srcLen: nat, dstLen: nat, pre: seq<nat>, a: nat, r: seq<nat>, i: nat)
    requires i < a && BoxFits(sv, dv, srcLen, dstLen, pre, [a] + r)
    ensures BoxFits(sv, dv, srcLen, dstLen, pre + [i], r)
  {
    forall x | 0 <= x < Product(r)
      ensures Fits(sv, (pre + [i]) + Lex(r, x), srcLen) && Fits(dv, (pre + [i]) + Lex(r, x), dstLen)
    {
      LexCons(a, r, i, x);
      assert (pre + [i]) + Lex(r, x) == pre + Lex([a] + r, i * Product(r) + x);
    }
  }

  /** A listing of the box's first coordinates inherits the box's fit. */
  lemma LexStartFits(sv: View, dv: View, srcLen: nat, dstLen: nat, pre: seq<nat>, dims: seq<nat>, calls: seq<seq<nat>>)
    requires BoxFits(sv, dv, srcLen, dstLen, pre, dims) && LexStart(calls, pre, dims)
    ensures AllFit(sv, dv, srcLen, dstLen, calls)
  {
  }

  /** copy_recursive at dimension d with the index stack holding the first d coordinates:
      nested loops over the remaining extents copy every coordinate of the remaining box, in
      lexicographic order; the visited coordinates are returned as `visited`. */
  method CopyRecursive<T>(src: array<T>, sv: View, dst: array<T>, dv: View, dims: seq<nat>, d: nat, idx: IndexStack)
    returns (ghost visited: seq<seq<nat>>)
    requires src != dst && d <= |dims| && |idx.items| == d
    requires BoxFits(sv, dv, src.Length, dst.Length, idx.items, dims[d..])
    modifies dst, idx
    ensures idx.items == old(idx.items)
    ensures LexStart(visited, old(idx.items), dims[d..]) && |visited| == Product(dims[d..])
    ensures AllFit(sv, dv, src.Length, dst.Length, visited)
    ensures dst[..] == WriteAll(old(dst[..]), src[..], sv, dv, visited)
    decreases |dims| - d
  {
    if d == |dims| {
      assert dims[d..] == [];
      LexEmpty(idx.items);
      visited := [idx.items];
      LexStartFits(sv, dv, src.Length, dst.Length, idx.items, [], visited);
      assert Fits(sv, visited[0], src.Length) && Fits(dv, visited[0], dst.Length);
      dst[Addr(dv, idx.items)] := src[Addr(sv, idx.items)];
      assert visited[1..] == [];
      return;
    }
    var rest := dims[d + 1..];
    assert dims[d..] == [dims[d]] + rest;
    ghost var pre := idx.items;
    ghost var start := dst[..];
    visited := [];
    for i := 0 to dims[d]
      invariant idx.items == pre && |pre| == d
      invariant LexStart(visited, pre, [dims[d]] + rest) && |visited| == i * Product(rest)
      invariant AllFit(sv, dv, src.Length, dst.Length, visited)
      invariant dst[..] == WriteAll(start, src[..], sv, dv, visited)
    {
      idx.Push(i);
      BoxFitsCons(sv, dv, src.Length, dst.Length, pre, dims[d], rest, i);
      assert dims[d + 1..] == rest;
      var sub := CopyRecursive(src, sv, dst, dv, dims, d + 1, idx);
      idx.Pop();
      assert idx.items == pre;
      LexStartExtend(visited, sub, pre, dims[d], rest, i);
      WriteAllAppend(start, src[..], sv, dv, visited, sub);
      visited := visited + sub;
    }
    LeadingExtent(dims[d], rest);
  }

  /** The destination after a block move of n elements from source offset so to destination
      offset do: the block replaced, everything else kept. */
  function BlockCopy<T>(dst: seq<T>, src: seq<T>, so: nat, do: nat, n: nat): (r: seq<T>)
    requires so + n <= |src| && do + n <= |dst|
    ensures |r| == |dst|
    ensures forall p :: do <= p < do + n ==> r[p] == src[so + p - do]
    ensures forall p :: 0 <= p < |dst| && !(do <= p < do + n) ==> r[p] == dst[p]
  {
    seq(|dst|, p requires 0 <= p < |dst| => if do <= p < do + n then src[so + p - do] else dst[p])
  }

  /** The contiguous fast path: copy_nonoverlapping of n elements. */
  method CopyBlock<T>(src: array<T>, so: nat, dst: array<T>, do: nat, n: nat)
    requires src != dst && so + n <= src.Length && do + n <= dst.Length
    modifies dst
    ensures dst[..] == BlockCopy(old(dst[..]), src[..], so, do, n)
  {
    for i := 0 to n
      invariant forall p :: 0 <= p < dst.Length ==>
        dst[p] == (if do <= p < do + i then src[so + p - do] else old(dst[p]))
    {
      dst[do + i] := src[so + i];
    }
  }

  /** Both layouts are dense row-major, so the copy takes the fast path. */
  predicate BothContiguous(sv: View, dv: View)
  {
    IsContiguous(sv.layout) && IsContiguous(dv.layout)
  }

  /** tensor_copy: refused (nothing written) when the shapes differ. With two contiguous
      layouts the first size() elements move as one block; otherwise copy_recursive visits
      every coordinate of the flat shape in lexicographic order. */
  method TensorCopy<T>(src: array<T>, sv: View, dst: array<T>, dv: View) returns (ok: bool)
    requires src != dst
    requires sv.layout.shape == dv.layout.shape && BothContiguous(sv, dv) ==>
      sv.offset + LayoutSize(sv.layout) <= src.Length && dv.offset + LayoutSize(dv.layout) <= dst.Length
    requires sv.layout.shape == dv.layout.shape && !BothContiguous(sv, dv) ==>
      FlatView(sv) && FlatView(dv) && BoxFits(sv, dv, src.Length, dst.Length, [], sv.layout.shape.vals)
    modifies dst
    ensures ok <==> sv.layout.shape == dv.layout.shape
    ensures !ok ==> dst[..] == old(dst[..])
    ensures ok && BothContiguous(sv, dv) ==>
      dst[..] == BlockCopy(old(dst[..]), src[..], sv.offset, dv.offset, LayoutSize(sv.layout))
    ensures ok && !BothContiguous(sv, dv) ==>
      AllFit(sv, dv, src.Length, dst.Length, LexAll(sv.layout.shape.vals)) &&
      dst[..] == WriteAll(old(dst[..]), src[..], sv, dv, LexAll(sv.layout.shape.vals))
  {
    if sv.layout.shape != dv.layout.shape {
      return false;
    }
    if BothContiguous(sv, dv) {
      CopyBlock(src, sv.offset, dst, dv.offset, LayoutSize(sv.layout));
      return true;
    }
    var dims := sv.layout.shape.vals;
    var idx := new IndexStack();
    assert dims[0..] == dims;
    ghost var visited := CopyRecursive(src, sv, dst, dv, dims, 0, idx);
    LexStartAll(visited, [], dims);
    assert visited == LexAll(dims) by {
      forall k | 0 <= k < |visited|
        ensures visited[k] == LexAll(dims)[k]
      {
        assert [] + LexAll(dims)[k] == LexAll(dims)[k];
      }
    }
    return true;
  }

  /** When distinct coordinates address distinct destination elements, the strided copy
      leaves every destination element at a coordinate of the box holding the source element
      at that coordinate. */
  lemma StridedCopyCopies<T>(dst: seq<T>, src: seq<T>, sv: View, dv: View, dims: seq<nat>, k: nat)
    requires AllFit(sv, dv, |src|, |dst|, LexAll(dims))
    requires forall j, j' :: 0 <= j < j' < |LexAll(dims)| ==> Addr(dv, LexAll(dims)[j]) != Addr(dv, LexAll(dims)[j'])
    requires k < Product(dims)
    ensures var c := LexAll(dims)[k];
      WriteAll(dst, src, sv, dv, LexAll(dims))[Addr(dv, c)] == src[Addr(sv, c)]
  {
    WriteAllLast(dst, src, sv, dv, LexAll(dims), k);
  }

  /** The 2x2 copy of the tests: (1,2,3,4) into a zeroed row-major tensor of shape (2),(2)
      leaves the destination equal to the source. */
  method CopyExample() returns (r: seq<int>)
    ensures r == [1, 2, 3, 4]
  {
    var l := RowMajorLayout(Tup([Int([2]), Int([2])]));
    SquareLayout();
    var src := new int[4](i => i + 1);
    var dst := new int[4](i => 0);
    assert src[..] == [1, 2, 3, 4];
    var ok := TensorCopy(src, View(0, l), dst, View(0, l));
    r := dst[..];
    assert forall p :: 0 <= p < 4 ==> r[p] == src[..][p];
  }

  /** The row-major 2x2 layout is contiguous and has four elements. */
  lemma SquareLayout()
    ensures var v := View(0, RowMajorLayout(Tup([Int([2]), Int([2])])));
      BothContiguous(v, v) && LayoutSize(v.layout) == 4
  {
    var shape := Tup([Int([2]), Int([2])]);
    RowMajorIsContiguous(shape);
    assert Flatten(shape) == [2, 2];
    assert [2, 2][1..] == [2] && [2][1..] == [];
  }
}
