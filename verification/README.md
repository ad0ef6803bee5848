# rutilelib layout algebra and tiling, in Dafny

This project models the core of rutilelib, a Rust library of hierarchical (CuTe-style)
layouts and the tiling machinery built on them, and proves properties of that model.

- **Shapes and strides.** A shape or stride is a nested tree of natural numbers: either a
  leaf list `Int([..])` or a branch `Tup([..])` of such trees (module `Nested`). The
  repository calls `dot`, `size`, `flatten`, `flat_len` and `flat_at` on this tree without
  defining it here, so the model gives those operations the meaning their call sites need:
  - `dot` is the sum of products over congruent trees;
  - `size` is the product of the leaves;
  - `flatten` lists the leaves in pre-order.
- **Layouts** (module `Layouts`). A layout pairs a shape with a stride tree.
  - The row-major and column-major stride policies are written as the loops the library
    runs: an accumulator loop for a leaf, and a push-then-reverse (or forward) loop over
    the children of a branch. Each loop is proved equal to a recursive definition.
  - `crd2idx` is the dot product with the stride.
  - `idx2crd` walks the (extent, stride) leaves in tree order with a running index and
    fails where the library panics.
  - `cosize` follows the last child of a branch only.
  - The central theorem is the round trip `crd2idx(idx2crd(i)) == i` for every
    `i < size` under a row-major layout, together with its converse.
- **Layout algebra** (module `LayoutAlgebra`). It covers `subtract_tuples`,
  `take_tuple`/`skip_tuple` and the four divides (`logical`, `zipped`, `tiled`, `flat`).
  These are pure tree rewrites, each wrapped with a fresh row-major stride. A panic in the
  library is `None` in the model.
- **Tensors and views** (module `Tensors`).
  - A tensor owns an array whose length is the layout's size.
  - A view is a base offset plus a layout; element `crd` lives at `offset + crd2idx(crd)`.
  - A subview moves the offset and keeps the parent's stride.
- **Tile iteration.**
  - `TileIter` (module `TiledTensor`) is the ragged, clipping odometer over tile starts.
  - `LayoutIterator` (module `LayoutIter`) is the step-by-one lexicographic odometer.
  - Both are classes whose `Next` mutates a `current` vector and a `done` flag. Both are
    proved against one shared mixed-radix counter (module `Odometer`).
  - The tiled views pair each tile with the subview over it.
- **Copy** (module `Copy`): `tensor_copy`, with its contiguous block fast path and its
  recursive strided fallback, and the coordinate enumerators. The index stack is pushed and
  popped around the recursion.
- **GEMM lowering** (module `Gemm`): which unit stride selects the leading dimension and
  the transpose flag, and which shape and contiguity checks `gemm_f32` makes before calling
  its backend.
- **Small value types:** `Dim<N>` (module `Dims`) and the flat static/dynamic `Stride`,
  `Indices`, `Tuple` and `Shape` wrappers (modules `Strides`, `Indices`, `Tuples`,
  `Shapes`).

Where the library panics (`assert!`, `expect`, a mismatched `match` arm, a division by a
zero stride), the model returns `None` or `false`. The exceptions are the `usize`
underflows of `x - y` in `subtract_tuples` and `l - t` in `logical_divide`, and a few
conditions that the library's callers always meet. Each of these is a precondition, and
each is listed under "Left out".

Paths in the table are relative to the repository root.

## Model

| member | source | states |
|---|---|---|
| Nested.DotFlatten | src/layout.rs:74-76 | The dot product of two congruent trees equals the flat dot product of their pre-order leaves, so crd2idx only depends on the flattened coordinate and stride. |
| Nested.DotLinear | src/tensor.rs:61-79 | dot is linear in the coordinate: dot(a + b, s) = dot(a, s) + dot(b, s) for trees congruent with s. This is what makes subview addressing work. |
| Nested.ProductAppend | src/layout.rs:44-46 | The size of a concatenation of leaf lists is the product of their sizes. |
| Nested.CongruentFlattenEqual | src/layout.rs:134-144 | Two congruent trees with the same leaves in pre-order are equal, so a stride tree is determined by its structure and its flattened strides. |
| Nested.ProductZero | src/layout.rs:44-46 | A product of extents is 0 if and only if one of the extents is 0. |
| Layouts.ScaleStride | src/layout.rs:116-121 | Scaling keeps the tree's Int/Tup structure and lengths, and multiplies every leaf, in tree order, by the factor. |
| Layouts.ScaleByOne | src/layout.rs:116-121 | Scaling a stride tree by 1 returns it unchanged. |
| Layouts.RowMajorStride | src/layout.rs:123-146 | The row-major policy, dispatched on leaf or branch, returns exactly the row-major stride tree of the shape. |
| Layouts.RowMajorLeafStride | src/layout.rs:125-133 | The backward accumulator loop over a leaf writes, at every position, the product of the extents to its right. |
| Layouts.RowMajorKidsStride | src/layout.rs:134-144 | The push-then-reverse loop gives each child its own row-major stride scaled by the product of the sizes of the children to its right. |
| Layouts.ColMajorStride | src/layout.rs:148-170 | The column-major policy returns exactly the column-major stride tree of the shape. |
| Layouts.ColMajorLeafStride | src/layout.rs:150-158 | The forward accumulator loop over a leaf writes, at every position, the product of the extents to its left. |
| Layouts.ColMajorKidsStride | src/layout.rs:159-168 | The forward loop gives each child its own column-major stride scaled by the product of the sizes of the children to its left. |
| Layouts.RowMajorLeafStrides | src/layout.rs:125-133 | For a leaf, the innermost row-major stride is 1 and stride[i] = sizes[i+1] * stride[i+1]. |
| Layouts.ColMajorLeafStrides | src/layout.rs:150-158 | For a leaf, the outermost column-major stride is 1 and stride[i] = stride[i-1] * sizes[i-1]. |
| Layouts.RowMajorFlatAppend | src/layout.rs:134-144 | The row-major strides of a concatenation are the left part's strides scaled by the right part's size, followed by the right part's strides. |
| Layouts.ColMajorFlatAppend | src/layout.rs:159-168 | The column-major strides of a concatenation are the left part's strides, followed by the right part's strides scaled by the left part's size. |
| Layouts.RowMajorFlattens | src/layout.rs:123-146 | The hierarchical row-major stride is congruent with its shape, and its leaves are the flat row-major strides of the shape's leaves. |
| Layouts.ColMajorFlattens | src/layout.rs:148-170 | The hierarchical column-major stride is congruent with its shape, and its leaves are the flat column-major strides of the shape's leaves. |
| Layouts.HierarchicalRowMajorExample | src/layout.rs:208-219 | Shape (2,(3,4)) gets the row-major stride (12,(4,1)). |
| Layouts.RowMajorPairExample | src/layout.rs:134-144 | A two-mode shape ((a),(b)) gets the row-major strides ((b),(1)), whatever a and b are. |
| Layouts.RowMajorIsContiguous | src/layout.rs:174-184 | Every layout built with the row-major policy is contiguous. |
| Layouts.DecodeFlat | src/layout.rs:81-89 | When a leaf decodes, it yields one component per zipped (extent, stride) pair and never increases the running index. |
| Layouts.Idx2Crd | src/layout.rs:78-104 | idx2crd, which threads one mutable index through the tree, returns exactly the tree-order decoding of the index, and None where the library panics. |
| Layouts.Idx2CrdFlat | src/layout.rs:81-89 | The leaf loop (quotient by the stride, subtract, check the component against its extent) computes the flat decoding and the index left over. |
| Layouts.Idx2CrdRec | src/layout.rs:79-100 | The recursive walk decodes a leaf with the leaf loop and a branch child by child. A leaf/branch mismatch fails. |
| Layouts.DecodeFlattens | src/layout.rs:78-104 | Decoding a tree succeeds exactly when decoding its flattened leaves does, and leaves the same remainder. The decoded tree is congruent with the shape and flattens to the flat decoding. |
| Layouts.FlatRowMajorRoundTrip | src/layout.rs:81-89 | For a leaf with row-major strides and any i < size, decoding consumes the whole index and the components encode back to i. |
| Layouts.RoundTrip | src/layout.rs:192-205 | For every i < size of a row-major layout, idx2crd succeeds, its result is congruent with the stride, and crd2idx maps it back to i. |
| Layouts.FlatRowMajorOutOfRange | src/layout.rs:81-89 | On a non-empty leaf with row-major strides, an index at or past the product of the extents is refused, by a zero stride or by the `v < sz` check. |
| Layouts.DecodeInRange | src/layout.rs:78-104 | Under a row-major layout, idx2crd succeeds if and only if the index is below the size, or the shape has no extents at all. In that last case the loop never runs, and every index decodes to the empty coordinate. |
| Layouts.EncodeDecode | src/layout.rs:74-104 | For every coordinate inside the shape, its row-major offset is below the size, and idx2crd maps that offset back to the coordinate. |
| Layouts.Crd2IdxInjective | src/layout.rs:74-76 | Under a row-major layout, two coordinates inside the shape have the same offset if and only if they are equal. |
| Layouts.LeafCosizeIsMaxOffset | src/layout.rs:56-61 | On a leaf, every in-range coordinate's offset is below cosize, and the all-last coordinate's offset is exactly cosize - 1. |
| Layouts.RowMajorLeafCosize | src/layout.rs:53-72 | A row-major leaf with all extents at least 1 has cosize equal to its size. |
| Layouts.LastChildCosizeExample | src/layout.rs:62-66 | For the row-major layout of (2,(3,4)), cosize follows the last child only and is 4, although the size is 24. |
| Layouts.NestedSizeExample | src/layout.rs:44-46 | The leaves of (2,(3,4)) are [2,3,4] and its size is 24. |
| Layouts.WithShapeStride | src/layout.rs:109-111 | with_shape_stride stores the shape and the stride as given, with no congruence check. |
| Layouts.LayoutSize | src/layout.rs:44-46 | size is the product of the extents, and it is 0 exactly when some extent is 0. Properties: Layouts.RoundTrip, Layouts.DecodeInRange, Layouts.EncodeDecode. |
| Layouts.Crd2Idx | src/layout.rs:74-76 | crd2idx is the flat dot product of the flattened coordinate with the flattened stride. Properties: Layouts.RoundTrip, Layouts.EncodeDecode, Layouts.Crd2IdxInjective. |
| Layouts.DecodeIndex | src/layout.rs:78-104 | Over congruent shape and stride trees, a coordinate idx2crd returns lies inside the shape. Properties: Layouts.Idx2Crd, Layouts.RoundTrip, Layouts.DecodeInRange. |
| Layouts.DecodeFlatInBox | src/layout.rs:81-89 | Every component the leaf loop produces is below its extent, which is the `v < sz` assert. |
| Layouts.DecodeInBox | src/layout.rs:78-104 | Over congruent shape and stride trees, a decoded coordinate is congruent with the shape and below it leaf by leaf. |
| Layouts.CosizeOf | src/layout.rs:53-72 | A cosize is at least 1, and a leaf/branch mismatch between shape and stride gives none. Properties: Layouts.LeafCosizeIsMaxOffset, Layouts.RowMajorLeafCosize, Layouts.LastChildCosizeExample. |
| Layouts.Cosize | src/layout.rs:53-72 | cosize of a layout is at least 1, and a leaf/branch mismatch between its shape and stride gives none. Properties: as for Layouts.CosizeOf. |
| LayoutAlgebra.SubFlat | src/layout_algebra.rs:7-19 | Leafwise subtraction keeps the length, and each result entry added back to b's entry gives a's entry. |
| LayoutAlgebra.Subtract | src/layout_algebra.rs:7-19 | subtract_tuples is defined exactly when the two trees are congruent, which rules out a length or leaf/branch mismatch. The result is congruent with its inputs. |
| LayoutAlgebra.SubtractThenAdd | src/layout_algebra.rs:7-19 | Subtracting b and then adding b gives back a. |
| LayoutAlgebra.TakeTuple | src/layout_algebra.rs:22-27 | take_tuple keeps the tree kind and the first n top-level entries (all of them when n is larger). |
| LayoutAlgebra.SkipTuple | src/layout_algebra.rs:30-35 | skip_tuple keeps the tree kind and drops the first n top-level entries. |
| LayoutAlgebra.TakeSkip | src/layout_algebra.rs:22-35 | Concatenating take_tuple(a, n) and skip_tuple(a, n) gives back a. |
| LayoutAlgebra.DivideLeavesCons | src/layout_algebra.rs:43-48 | A leaf pair (l, t) becomes the leaf Int([t, l - t]), and the remaining pairs are divided the same way. |
| LayoutAlgebra.LogicalDivide | src/layout_algebra.rs:40-59 | A logical_divide result carries the row-major stride of its own shape. |
| LayoutAlgebra.LogicalDivideLeaves | src/layout_algebra.rs:40-59 | For congruent layout and tiler with t <= l at each leaf, logical_divide succeeds, and its leaves are t, l - t for each leaf pair in turn. |
| LayoutAlgebra.LogicalDivideMismatch | src/layout_algebra.rs:41-55 | The logical_divide recursion fails if and only if a leaf meets a branch somewhere along the zip. Extra children or extents on either side are dropped, not refused. |
| LayoutAlgebra.LogicalDivideKidsMismatch | src/layout_algebra.rs:50-52 | Dividing zipped children fails if and only if some zipped pair holds a leaf/branch mismatch. |
| LayoutAlgebra.LogicalDivideRefused | src/layout_algebra.rs:40-59 | logical_divide of two layouts returns nothing exactly when their shapes have a leaf/branch mismatch along the zip. |
| LayoutAlgebra.LogicalDivideExample | src/layout_algebra.rs:126-138 | Dividing 8x6 by 2x3 gives ((2,6),(3,3)). |
| LayoutAlgebra.Quotients | src/layout_algebra.rs:65-68 | The leafwise quotients are defined exactly when no tile extent among the zipped pairs is 0. Each entry is l / t, and the zip truncates to the shorter leaf. |
| LayoutAlgebra.ZippedDivide | src/layout_algebra.rs:62-82 | A zipped_divide result is a two-child branch (tile, rest) with the row-major stride of its own shape. |
| LayoutAlgebra.ZippedPartsSpec | src/layout_algebra.rs:62-82 | For a congruent tiler with positive extents, the tile part is the tiler verbatim, and the rest part is congruent with it and holds l / t at every leaf. |
| LayoutAlgebra.ZippedDivideDefined | src/layout_algebra.rs:62-82 | For congruent layout and tiler, zipped_divide succeeds if and only if every tiler extent is positive. |
| LayoutAlgebra.ZippedMismatch | src/layout_algebra.rs:63-77 | A leaf meeting a branch anywhere along the zip makes the zipped_divide recursion fail. |
| LayoutAlgebra.ZippedKidsMismatch | src/layout_algebra.rs:70-74 | A mismatch at any zipped pair of children makes the children's divide fail. |
| LayoutAlgebra.ZippedDivideRefused | src/layout_algebra.rs:62-115 | On a leaf/branch mismatch along the zip of the two shapes, zipped_divide, tiled_divide and flat_divide all return nothing. |
| LayoutAlgebra.ZippedDivideSize | src/layout_algebra.rs:62-82 | When every tile extent divides its layout extent, size(tile) * size(rest) = size(layout). |
| LayoutAlgebra.ZippedDivideExample | src/layout_algebra.rs:141-153 | Dividing 8x6 by 2x3 gives ((2,3),(4,2)). |
| LayoutAlgebra.SpliceRest | src/layout_algebra.rs:88-97 | Splicing keeps the tile group as the first child. A branch rest contributes its children as the following children, and a leaf rest becomes the single second child. The leaves are the tile leaves followed by the rest leaves. |
| LayoutAlgebra.TiledDivide | src/layout_algebra.rs:85-101 | tiled_divide succeeds exactly when zipped_divide does. Its first child is zipped_divide's tile, and its remaining children are the rest's children, or the rest itself when that is a leaf. It has the same leaves in the same order, with the row-major stride of its own shape. |
| LayoutAlgebra.FlatDivide | src/layout_algebra.rs:104-115 | flat_divide succeeds exactly when zipped_divide does. Its result is a single leaf with the row-major stride of its own shape. |
| LayoutAlgebra.FlatDivideLeaves | src/layout_algebra.rs:104-115 | flat_divide lists the tiler's n leaves first and then the n quotients l / t, in leaf order. |
| LayoutAlgebra.TiledAndFlatDivideExample | src/layout_algebra.rs:156-183 | Dividing 8x6 by 2x3 gives ((2,3),4,2) under tiled_divide and (2,3,4,2) under flat_divide. |
| LayoutAlgebra.SpliceExample | src/layout_algebra.rs:85-101 | Splicing rest (4,2) after tile (2,3) gives ((2,3),4,2), whose leaves are [2,3,4,2]. |
| Odometer.Carry | src/tiled_tensor.rs:83-93 | The carry loop keeps the counter's length, and only touches the dimensions before the one it started from. |
| Odometer.CarryIsInc | src/tiled_tensor.rs:83-93 | On a counter whose entries are digits times steps, the rightmost-first carry loop is a mixed-radix increment. done is set exactly when every digit was at its maximum. |
| Odometer.EncodeInc | src/layout_iter.rs:33-44 | An increment adds one to the encoded number, or wraps to all zeros exactly when every digit is at its maximum. |
| Odometer.DigitsEncode | src/layout_iter.rs:33-44 | Every in-range digit vector encodes below the product of the radii and decodes back to itself. |
| Odometer.EncodeDigits | src/layout_iter.rs:33-44 | Decoding j < product and encoding again gives back j. |
| Odometer.DigitsMonotone | src/layout_iter.rs:33-44 | Larger counts give lexicographically larger digit vectors. |
| Odometer.CounterStep | src/tiled_tensor.rs:83-93 | From the j-th counter value, one carry gives the (j+1)-th, or all zeros with done set exactly when j is the last. |
| Odometer.RadixSpec | src/tiled_tensor.rs:84-85 | Along a dimension, digit x is reachable (x * step < bound) exactly when x is below that dimension's radix. |
| Odometer.NoDimensionsNeverEnd | src/tiled_tensor.rs:83-93 | With zero dimensions the carry loop does nothing and never sets done. |
| TiledTensor.TileLens | src/tiled_tensor.rs:77-80 | Each clipped length is at most the tile extent and stays inside the full shape, and it equals one of the two. |
| TiledTensor.ClipLens | src/tiled_tensor.rs:77-80 | The length loop computes min(tile[d], full[d] - start[d]) for every dimension. |
| TiledTensor.TileStep | src/tiled_tensor.rs:83-93 | Advancing from the j-th start reaches the (j+1)-th start, or sets done with an all-zero counter exactly after the last tile. |
| TiledTensor.TileIter.constructor | src/tiled_tensor.rs:55-63 | A new iterator has an all-zero counter of length ndim and done = false. |
| TiledTensor.TileIter.Next | src/tiled_tensor.rs:69-96 | Once done, next returns None and changes nothing. Otherwise it returns the count-th tile (start and clipped lengths) and advances the counter by the carry loop. done is set exactly after the last tile. |
| TiledTensor.TileIter.Advance | src/tiled_tensor.rs:83-93 | The in-place carry loop leaves the counter and done flag that the carry function describes. |
| TiledTensor.AllTiles | src/tiled_tensor.rs:69-96 | Draining the iterator yields TileCount tiles, the k-th being the k-th tile of the grid. |
| TiledTensor.TileCovers | src/tiled_tensor.rs:212-244 | Every cell of the full box lies in some yielded tile. |
| TiledTensor.TileOwned | src/tiled_tensor.rs:186-190 | A cell inside the k-th tile is inside the full box, and k is the tile that owns it. |
| TiledTensor.TileCoordsAreDigits | src/tiled_tensor.rs:83-93 | The tile grid position of any cell in the k-th tile is the k-th counter value's digits. |
| TiledTensor.ExactCover | src/tiled_tensor.rs:212-244 | A cell of the box is in the k-th tile if and only if k is its owner, so each cell is hit exactly once. |
| TiledTensor.TilesDisjoint | src/tiled_tensor.rs:186-190 | Two yielded tiles that share a cell are the same tile. |
| TiledTensor.TileCountExamples | src/tiled_tensor.rs:212-268 | 8x6 tiled by 3x4 gives 6 tiles, and 7x5 tiled by 4x3 gives 4 tiles, the last one at (4,3) with clipped length (3,2). |
| TiledTensor.WholeTile | src/tiled_tensor.rs:301-324 | When the tile equals the full shape, there is exactly one tile, with start 0 and length the full shape. |
| TiledTensor.NewTiledView | src/tiled_tensor.rs:110-129 | The view is refused exactly where flat_divide panics (a zero tiler extent). Otherwise the iterator is seeded with the tiler's leaves as tile dims and the base shape's flattened extents as the full shape, with count 0 and done = false. |
| TiledTensor.TiledView.NextTile | src/tiled_tensor.rs:131-138 | Each step yields the iterator's next tile paired with the base subview at (start, len), and None once the iterator is done. |
| TiledTensor.TileWrite | src/tiled_tensor.rs:271-298 | In a row-major m x n view, element (i,j) of a tile's subview is the buffer cell at (start + (i,j)), which lies inside that tile. |
| TiledTensor.FillTile | src/tiled_tensor.rs:271-298 | Writing each element's own linear index through one tile subview sets exactly the cells of that tile, and every other cell keeps its value. |
| TiledTensor.FillThroughTiles | src/tiled_tensor.rs:271-298 | Writing each element's linear index through every tile subview leaves data[i] == i over the whole base buffer. |
| TiledTensor.FilledAll | src/tiled_tensor.rs:271-298 | Once every tile has been filled, every cell holds its own index, because the tiles cover the box. |
| LayoutIter.LayoutIterator.constructor | src/layout_iter.rs:13-20 | A new iterator has current all zeros and done = false. |
| LayoutIter.LayoutIterator.Next | src/layout_iter.rs:26-47 | Once done, next returns None and changes nothing. Otherwise it returns the count-th coordinate and increments current rightmost-fastest by one with carry. |
| LayoutIter.LayoutIterator.Advance | src/layout_iter.rs:33-44 | The in-place reverse carry loop produces the counter and done flag that the carry function describes. |
| LayoutIter.Extents | src/layout_iter.rs:34-44 | The iterator treats an extent of 0 like an extent of 1, and every other extent as itself. |
| LayoutIter.CoordStep | src/layout_iter.rs:33-44 | One carry from the j-th coordinate gives the (j+1)-th, or all zeros with done set exactly after the last. |
| LayoutIter.AllCoords | src/layout_iter.rs:26-47 | Draining the iterator yields CoordCount coordinates, the k-th being the k-th coordinate. |
| LayoutIter.Enumerates | src/layout_iter.rs:33-44 | With all extents at least 1, the iterator yields product(shape) coordinates, each inside the box, and every coordinate of the box appears. |
| LayoutIter.LexicographicOrder | src/layout_iter.rs:33-44 | Coordinates are yielded in strictly increasing lexicographic order. |
| LayoutIter.FirstCoordIsZero | src/layout_iter.rs:31-46 | The all-zero vector is always yielded first, even when some extent is 0. |
| LayoutIter.CoordExample | src/layout_iter.rs:26-47 | A 2x3 box has 6 coordinates, and the fifth is (1,1). |
| LayoutIter.TileStarts | src/layout_iter.rs:52-75 | There is one grid start per whole tile: the product of the whole-tile counts, or none when some dimension fits no whole tile. |
| LayoutIter.TileStartsFit | src/layout_iter.rs:52-75 | Every grid start is a multiple of the tile and leaves room for a whole tile inside the shape. |
| LayoutIter.TileStartsDistinct | src/layout_iter.rs:100-118 | The grid starts are pairwise distinct. |
| LayoutIter.TileStartsExample2D | src/layout_iter.rs:52-75 | Tiling 8x6 by 3x2 gives exactly (0,0),(0,2),(0,4),(3,0),(3,2),(3,4), dropping the trailing rows. |
| LayoutIter.TileStartsExample3D | src/layout_iter.rs:100-118 | Tiling 4x6x8 by 2x3x4 gives 8 starts, from (0,0,0) to (2,3,4). |
| LayoutIter.RestStarts | src/layout_iter.rs:78-97 | There is a remainder start if and only if the tile leaves a remainder in some dimension. There is at most one, with one entry per dimension. |
| LayoutIter.RestStartsRemainder | src/layout_iter.rs:78-97 | Along a dimension the tile does not divide, the remainder start plus the remainder reaches the extent. |
| LayoutIter.RestStartsExample2D | src/layout_iter.rs:78-97 | The remainder start of 8x6 by 3x2 is [6,0]. |
| LayoutIter.RestStartsExample3D | src/layout_iter.rs:121-137 | The remainder start of 4x6x8 by 3x4x5 is [3,4,5]. |
| Copy.IndexStack.constructor | src/copy.rs:25 | The coordinate stack starts empty. |
| Copy.IndexStack.Push | src/copy.rs:46 | A push appends the index. |
| Copy.IndexStack.Pop | src/copy.rs:48 | A pop removes the last index. |
| Copy.Lex | src/copy.rs:89-105 | Every lexicographic coordinate has one entry per dimension. |
| Copy.LexCons | src/copy.rs:100-104 | The coordinate at i * product(rest) + x of a box is i followed by the coordinate at x of the rest. This is the nesting of the per-level loops. |
| Copy.EnumerateInt | src/copy.rs:89-105 | The callback receives exactly prefix + each coordinate of the box dims[d..], in lexicographic order, product(dims[d..]) calls in all, and the prefix is unchanged on return. |
| Copy.LexStartAll | src/copy.rs:89-105 | A complete lexicographic call sequence is the prefix in front of every coordinate of the box. |
| Copy.EnumerateCoords | src/copy.rs:72-87 | On a leaf the callback gets its box coordinates. On a branch each child is run in turn from the same prefix. The prefix is unchanged on return. |
| Copy.CoordsOfKidsAppend | src/copy.rs:81-85 | Enumerating a list of children is enumerating each part in turn, with no cross product. |
| Copy.CoordsOfExample | src/copy.rs:77-86 | The branch (2,3) enumerates [0],[1],[0],[1],[2], one child after the other. |
| Copy.WriteAllLast | src/copy.rs:38-40 | After a sequence of element copies, a destination cell holds the source element of the last coordinate written there. |
| Copy.WriteAllUntouched | src/copy.rs:38-40 | A destination cell that no coordinate addresses keeps its value. |
| Copy.CopyRecursive | src/copy.rs:29-50 | The recursive copy visits prefix + every coordinate of the remaining box in lexicographic order, and copies the source element to the destination at each. The index stack is unchanged on return. |
| Copy.BlockCopy | src/copy.rs:16-22 | The fast path copies n consecutive elements from the source offset to the destination offset and leaves every other destination cell unchanged. |
| Copy.CopyBlock | src/copy.rs:16-22 | The element loop performs exactly that block copy. |
| Copy.TensorCopy | src/copy.rs:8-26 | The copy succeeds exactly when the two shapes are equal, and changes nothing otherwise. When both layouts are contiguous it block-copies size() elements. Otherwise it writes every coordinate of the box in lexicographic order. |
| Copy.StridedCopyCopies | src/copy.rs:25 | When distinct coordinates hit distinct destination cells, the strided copy leaves, at every coordinate's destination cell, that coordinate's source element. |
| Copy.CopyExample | src/copy.rs:115-134 | Copying a 2x2 row-major tensor holding 1,2,3,4 leaves the destination buffer equal to 1,2,3,4. |
| Copy.SquareLayout | src/copy.rs:115-134 | A row-major 2x2 layout is contiguous with size 4, so the fast path applies. |
| Tensors.Tensor.constructor | src/tensor.rs:16-19 | The tensor's buffer holds exactly the given elements, under the given layout. |
| Tensors.NewTensor | src/tensor.rs:16-19 | Tensor::new succeeds exactly when the element count equals the layout's size, and then stores the elements and layout verbatim. |
| Tensors.Tensor.AsView | src/tensor.rs:25-31 | as_view starts at offset 0 with the tensor's own layout, and the layout's size is the buffer length. Properties: Tensors.AsViewInBounds. |
| Tensors.Get | src/tensor.rs:61-64 | get reads the buffer at the view's offset plus the coordinate's dot product with the stride. |
| Tensors.Set | src/tensor.rs:109-112 | A write through get_mut is read back at the same coordinate, and every other buffer cell is unchanged. |
| Tensors.Subview | src/tensor.rs:68-79 | A subview's offset is the parent's offset plus crd2idx(start), and its layout is the subshape with the parent's stride unchanged. |
| Tensors.Subview2D | src/tensor.rs:83-101 | subview_2d(r0, c0, r, c) needs a two-mode stride ((p),(q)). It starts at the parent's offset plus r0 * p + c0 * q, with shape ((r),(c)) and the parent's stride. Properties: Tensors.Subview2DRowMajor. |
| Tensors.SubviewElement | src/tensor.rs:61-79 | Element crd of a subview at start is the parent's element at start + crd. |
| Tensors.SubviewSize | src/tensor.rs:190-218 | A subview's size is the size of its subshape. |
| Tensors.AsViewInBounds | src/tensor.rs:25-31 | Through as_view of a row-major tensor, every coordinate inside the shape addresses a cell inside the buffer. |
| Tensors.Subview2DRowMajor | src/tensor.rs:83-101 | subview_2d(r0, c0, r, c) of a row-major rows x cols view starts at r0 * cols + c0, with shape ((r),(c)) and the parent's strides ((cols),(1)). |
| Tensors.Subview2DExample4x4 | src/tensor.rs:172-188 | The 2x2 subview at (1,1) of a 4x4 row-major view has shape (2,2), size 4 and offset 5. |
| Tensors.Subview2DExample3x3 | src/tensor.rs:221-246 | The 1x1 subview at (1,1) of a 3x3 row-major view starts at the parent's element ((1),(1)), offset 4. |
| Tensors.SubviewNDExample | src/tensor.rs:191-218 | An N-D subview of shape (1,2,3) has size 6. |
| Tensors.WriteThroughSubview | src/tensor.rs:114-125 | A write through subview_mut at crd is what the parent then reads at start + crd. |
| Gemm.AsI32 | src/gemm.rs:51-53 | `as i32` yields a value in the i32 range, congruent to the input modulo 2^32, and equal to the input when it is below 2^31. |
| Gemm.LowerMatrix | src/gemm.rs:12-29 | lower_matrix succeeds exactly on two flattened extents with a unit stride among the first two strides. The leading dimension is an i32, and the result is NoTrans exactly when the inner stride is 1. Properties: Gemm.LowerContiguous, Gemm.LowerColumnMajor, Gemm.LowerMatrixExamples. |
| Gemm.GemmF32 | src/gemm.rs:35-88 | When gemm_f32 makes a call, all three operands are contiguous and neither input is transposed. Properties: Gemm.GemmAccepts. |
| Gemm.LowerMatrixExamples | src/gemm.rs:12-29 | Strides (2,1) lower to (2, NoTrans) and (1,2) to (2, Trans). (1,1) takes the NoTrans branch. (4,2) (not dense) and a three-dimensional shape are refused. |
| Gemm.LowerContiguous | src/gemm.rs:12-29 | A contiguous two-dimensional layout lowers to NoTrans with its inner extent as the leading dimension. |
| Gemm.LowerColumnMajor | src/gemm.rs:12-29 | A column-major two-dimensional layout lowers to Trans with its outer extent as the leading dimension, except that an outer extent of 1 gives inner stride 1 and NoTrans. |
| Gemm.GemmAccepts | src/gemm.rs:35-88 | gemm_f32 proceeds if and only if all three operands are two-dimensional, B's rows match A's columns, C is m x n (compared after the i32 cast) and all three are contiguous. It then calls the backend with NoTrans, NoTrans, m, n, k, lda = k, ldb = n and ldc = C's first flattened stride. |
| Gemm.GemmDispatchExample | src/gemm.rs:131-153 | Three 2x2 row-major operands dispatch to the backend with m = n = k = 2 and leading dimensions 2. |
| Dims.StaticDim | src/dim.rs:23-26 | static_dim is static, and its value is N. |
| Dims.DynamicDim | src/dim.rs:32-38 | dynamic(v) succeeds exactly when N == 0, and is then dynamic with value v. |
| Dims.ToDynamic | src/dim.rs:44-50 | to_dynamic succeeds exactly when N != 0, and yields a dynamic Dim<0> whose value is N. |
| Dims.ToDynamicKeepsValue | src/dim.rs:44-59 | Converting a conventional dimension to dynamic preserves value(). |
| Dims.Value | src/dim.rs:54-59 | value is N for a static dimension and the carried value for a dynamic one. |
| Dims.IsStatic | src/dim.rs:63-65 | A dimension is static exactly when its display starts with '_'. |
| Dims.Show | src/dim.rs:71-78 | The display is non-empty, starts with '_' exactly for a static dimension, and is otherwise decimal digits. Properties: Dims.ShowReadsBack, Dims.ShowInjective. |
| Dims.FromNat | src/dim.rs:81-85 | From<usize> gives a dynamic Dim<0> with value v. |
| Dims.Decimal | src/dim.rs:71-78 | A decimal rendering is a non-empty string of digits with no leading zero. |
| Dims.DecimalRoundTrip | src/dim.rs:71-78 | Parsing the decimal rendering of n gives back n. |
| Dims.ShowReadsBack | src/dim.rs:71-78 | Display starts with '_' exactly for a static dimension, and the rest of the string reads back as value(). |
| Dims.ShowInjective | src/dim.rs:71-78 | Two dimensions of the same N with the same display are equal. |
| Dims.DimExamples | src/dim.rs:99-138 | Dim<32> static shows "_32", dynamic 17 shows "17", From(42) has value 42, Dim<8>::dynamic is refused, and Dim<64>'s to_dynamic has value 64. |
| Strides.Rank | src/stride.rs:20-22 | rank is the number of strides. |
| Strides.DynRank | src/stride.rs:56-58 | The dynamic rank is the number of strides. |
| Strides.Size | src/stride.rs:25-33 | The while loop multiplies all the entries together. |
| Strides.ToDynamic | src/stride.rs:36-40 | to_dynamic keeps the entries, in order. |
| Strides.ToDynamicKeepsSize | src/stride.rs:25-62 | The static size equals the dynamic size after to_dynamic, and the rank is kept. |
| Strides.DynSize | src/stride.rs:60-62 | The dynamic size is 1 for no entries, and 0 if and only if some entry is 0. |
| Strides.StrideExamples | src/stride.rs:71-86 | [1,2,6] has size 12 and rank 3 in both forms, and an empty dynamic stride has size 1. |
| Indices.Zero | src/indices.rs:12-14 | zero() has R entries, all 0. |
| Indices.ToDyn | src/indices.rs:21-25 | to_dyn keeps the rank and the values, in order. |
| Indices.Rank | src/indices.rs:16-18 | rank is R, the number of entries. |
| Indices.DynRank | src/indices.rs:43-45 | The dynamic rank is the number of entries. |
| Indices.DynZero | src/indices.rs:39-41 | IndicesDyn::zero(rank) has exactly rank entries, all 0. |
| Indices.ZeroToDyn | src/indices.rs:12-41 | The static zero converts to the dynamic zero of the same rank. |
| Indices.IndicesExamples | src/indices.rs:53-65 | [1,2,3] has rank 3 and converts to [1,2,3], and [4,5] has rank 2. |
| Tuples.New | src/tuple.rs:8-10 | new stores the values verbatim, and the rank is their count. |
| Tuples.ToDyn | src/tuple.rs:17-21 | to_dyn keeps the rank and the values, in order. |
| Tuples.Rank | src/tuple.rs:12-14 | rank is R, the number of entries. |
| Tuples.DynRank | src/tuple.rs:35-37 | The dynamic rank is the number of entries. |
| Tuples.DynNew | src/tuple.rs:31-37 | TupleDyn::new stores the values verbatim, and its rank is their count. |
| Tuples.NewToDyn | src/tuple.rs:8-33 | Building statically and converting gives the dynamic tuple of the same values. |
| Tuples.TupleExamples | src/tuple.rs:45-56 | (1,2,3) has rank 3 and converts to [1,2,3], and a dynamic 4-tuple has rank 4. |
| Shapes.New | src/shape.rs:8-10 | new stores the dims verbatim, and the rank is their count. |
| Shapes.ToDyn | src/shape.rs:17-21 | to_dyn keeps the rank and the dims, in order. |
| Shapes.Rank | src/shape.rs:12-14 | rank is R, the number of entries. |
| Shapes.DynRank | src/shape.rs:35-37 | The dynamic rank is the number of entries. |
| Shapes.DynNew | src/shape.rs:31-37 | ShapeDyn::new stores the dims verbatim, and its rank is their count. |
| Shapes.NewToDyn | src/shape.rs:8-33 | Building statically and converting gives the dynamic shape of the same dims. |
| Shapes.ShapeExamples | src/shape.rs:44-56 | (10,20) has rank 2 and converts to [10,20], and a dynamic 3-shape has rank 3. |

## Left out

- The BLAS backend: src/blas.rs (dynamic library loading, the process-wide handle, the
  `cblas_sgemm` foreign call). Also the floating-point multiplication itself, with its
  alpha/beta values and its float correctness test. `GemmF32` returns the call arguments
  instead of making the call.
- examples/ (command-line demos using random data and float comparison) and src/lib.rs (a
  module list).
- Unsafe `NonNull` addressing, lifetimes and the borrow rules. A view is an (offset, layout)
  value over an array, and one `View` type serves both the read-only and the mutable view.
  That no two mutable views overlap is a caller contract, so it is not modelled.
- The `DIMS_TEST_N` environment variable read by a dim.rs test helper. The test is
  modelled with its default value 17.
- The `to_string` rendering of nested tuples and shapes. It is not defined in the
  repository's sources, so trees are compared structurally.
- `assert_tensor_eq` (src/copy.rs:52-70), a test helper. Its coordinate walk is modelled
  by `Copy.EnumerateCoords`; the element comparison is not modelled.
- `Layout::rank`, and the `Tile` accessors `start`/`len`/`ndim`. These are field reads; the
  model reads the fields directly.
- The recursive nested tuple type, `is_contiguous`, `tile_iter` and `rest_iter` are not
  defined in the repository's sources. They are modelled from their call sites and tests:
  - `IsContiguous` means the flattened strides are the dense row-major strides of the
    flattened extents;
  - `TileStarts` and `RestStarts` give the outputs the layout_iter tests expect.
  - When the tile divides every extent, `RestStarts` yields no start. This matches `TileStarts`, which yields none when no whole tile fits. The tests cover neither case, so both are the model's own choice.
- Integer width: `usize` arithmetic is unbounded in the model. Underflow of `full - start`
  in `TileIter::next` cannot happen, because every start stays inside the full shape.
  Overflow of `usize` products is not modelled. The `as i32` casts in gemm_f32 are
  modelled with wrap-around (`Gemm.AsI32`).
- `FlatAt` out of range (an index panic in the library) is excluded by its precondition.
  The gemm model only calls it after checking the flattened length.
- TiledTensor.TileIter.constructor: requires at least one dimension, a full extent for
  every tile dimension, and positive tile extents.
  - With ndim = 0 the library's iterator never sets `done` and yields empty tiles
    forever. `Odometer.NoDimensionsNeverEnd` states that fact, but the class does not
    model the endless iterator.
  - With a zero tile extent the counter never advances.
  - A shorter full shape is an index panic.
- LayoutIter.LayoutIterator.constructor: requires at least one dimension, for the same
  reason (the iterator never ends with zero dimensions).
- TiledTensor.NewTiledView: requires a tiler congruent with the base shape and a base
  stride that is one flat leaf. That is the setting in which the library's tile subviews,
  a flat start and length, address the base correctly. The library accepts any base, so
  nested strides are not modelled.
- Copy.TensorCopy: the strided fallback is modelled for flat (single-leaf) views only,
  with every coordinate's source and destination cells inside their buffers. The
  library's fallback reads `dims.len()` and `flatten()[dim]` from a nested shape, which
  mixes the top-level count with the flattened extents; that case is not modelled.
- LayoutAlgebra.Subtract: requires `SubtractFits`, meaning every subtracted entry is at most the entry it is taken from. The library's `x - y` on `usize` panics in a debug build and wraps in a release build. Neither outcome is modelled. `subtract_tuples` has no caller in the library.
- LayoutAlgebra.LogicalDivide: requires `TileFits`, meaning every tile extent along the zip is at most the extent it divides. The library's `l - t` on `usize` panics in a debug build and wraps in a release build. Neither outcome is modelled. The leaf/branch mismatch panic is modelled (`LayoutAlgebra.LogicalDivideRefused`).
- Layouts.Crd2Idx: an out-of-box coordinate is not rejected, exactly as in the library,
  but a coordinate must be congruent with the stride tree. The library's `dot` on
  mismatched trees is not defined in the repository's sources.
- Layouts.Cosize: requires every extent on the last-child path to be at least 1. The
  library computes `s - 1` there, which underflows on 0.
