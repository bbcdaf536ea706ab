# Strided matrix views, modelled in Dafny

This project models the strided-view matrix library `cpp_learn` in its two
drafts. It states and proves what each operation does to offsets, extents,
strides and buffers.

The **2-D draft** (`include/`) has four parts:

- a per-dimension range `slice` (start, end, stride), sized by floor division;
- a descriptor `MatrixSlice`, which resolves `(i, j)` to a flat offset into
  its parent's row-major buffer and composes a slice of a slice;
- a non-owning view `MatrixRef`: a buffer pointer plus a descriptor, with
  element access, sub-views, the two `apply` loops and `==`;
- the fixed-size owner `Matrix<T, Nrows, Ncols>`, which is filled row-major
  from a nested initializer list or from a view, and hands out views over
  its own buffer.

The **N-dimensional draft** (`vector_based/`) has three parts:

- the descriptor `MatrixSlice<N>`, with address `start + sum of idx[k] * strides[k]`;
- the element access and queries of `MatrixBase<T, N>`;
- the `std::vector`-backed owner `Matrix<T, N>`, with its rank-0
  specialisation `Matrix<T, 0>`.

## Modules

| module | file | models |
|---|---|---|
| `Slices` | `slice.dfy` | `include/slice.hpp` |
| `MatrixSlices` | `matrix_slice.dfy` | `include/matrix_slice.hpp` |
| `MatrixRefs` | `matrix_ref.dfy` | `include/matrix_ref.hpp` |
| `Matrices` | `matrix.dfy` | `include/matrix.hpp` |
| `SliceTests` | `slice_tests.dfy` | the views built by `tests/test_main.cpp`, worked out in the model |
| `NSlices` | `nd_slice.dfy` | `vector_based/matrix_slice.hpp`, and the descriptor arithmetic of the row and column accessors |
| `NMatrices` | `nd_matrix.dfy` | `vector_based/matrix_base.hpp` and `vector_based/matrix.hpp` |
| `Arith` | `arith.dfy` | multiplication and division facts used by the proofs |
| `Buffers` | `buffers.dfy` | what the element loops do to a buffer, one write per visited cell |

How the model is built:

- **Types.** Sizes and offsets are unbounded naturals. Buffers are `array<T>`.
- **Views.** A view is a datatype holding the array reference, so a view and
  its owner really share storage.
- **Loops.** Each `apply` loop and copy loop is a method over that array.
  `MatrixRef.Apply`, `MatrixRef.Apply2` and `Matrix.AssignView` are proved
  against a function of `Buffers` that writes the visited cells in the
  order the loop visits them, so when two views share a buffer, later reads
  see earlier writes. `Matrix.AssignList` is proved against the flattened
  list (`Matrices.Flatten`). The N-D `Matrix.Apply` and `Matrix.Apply2` run
  over the whole buffer in storage order and are proved against
  postconditions stating every new element as `f` of the old ones.
- **Functors.** The functor of `apply` is a function parameter. The C++
  functor takes its element by reference; here it returns the new value.

`MatrixSlices.Cells(d)` lists the offsets of a 2-D descriptor in row-major
order of `(i, j)`.

Some members are plain reads and carry no contract:

- `MatrixSlices.Rows` / `Cols` / `Offset` (`include/matrix_slice.hpp:32-39`);
- `MatrixRefs.MatrixRef.NRows` / `NCols` (`include/matrix_ref.hpp:28-29`);
- `Matrices.Matrix.Data` (`include/matrix.hpp:51-52`);
- `NMatrices.Matrix.Order`, `Extent`, `Descriptor`, `NRows`, `NCols`, `Data`
  and `Get` (`vector_based/matrix_base.hpp:34-71`, `vector_based/matrix.hpp:123-124`);
- `NMatrices.Scalar.Get` (`vector_based/matrix.hpp:331-338`).

`NMatrices.Matrix.Get` and `Set` require the resolved offset to be in the buffer, and
`NMatrices.FromDimsInBuffer` shows that canonical descriptors always meet that.

## Model

| member | source | states |
|---|---|---|
| Slices.Slice.Size | include/slice.hpp:13 | the floor size never exceeds `end - start`, and equals it for stride 1 |
| Slices.SizeIsFloor | include/slice.hpp:13 | `size * stride <= end - start < (size + 1) * stride`; a range with `start == end` is empty |
| Slices.SizeOfExact | include/slice.hpp:13 | a range exactly `n` strides long has size `n` |
| Slices.PosBelowEnd | include/slice.hpp:8-13 | every selected position `start + k * stride`, for `k < size()`, lies below `end` |
| Slices.NextPosBelowEndIff | include/slice.hpp:13 | the position after the last selected one is still below `end` if and only if the stride does not divide the length |
| Slices.CeilSizeSelects | include/slice.hpp:8-13 | the ceiling size counts exactly the positions below `end` (both directions) |
| Slices.SizeVersusCeilSize | include/slice.hpp:13 | floor and ceiling sizing agree when the stride divides the length; otherwise the code's size is one short |
| Slices.StridedTestRange | tests/test_main.cpp:74-75 | the code sizes `slice(0, 3, 2)` as 1 position, while 2 positions lie below 3 |
| Slices.Unit | include/matrix_ref.hpp:59 | `{k, k + 1}` with stride 1 is a valid range of one position, `k` |
| Slices.Compose | include/matrix_slice.hpp:51-54 | one half of the composition: the composed stride is the product of the strides |
| Slices.ComposePos | include/matrix_slice.hpp:51-54 | a composed position never exceeds the parent position of the requested one, and equals it if and only if the parent stride is 1 or the requested start is 0 |
| Slices.ComposeFromZero | include/matrix_slice.hpp:51-54 | with requested start 0 the composed range is valid and keeps the requested size |
| Slices.ComposeSizeAtMost | include/matrix_slice.hpp:51-54 | a composed range never holds more positions than were requested |
| Slices.ComposeShrinks | include/matrix_slice.hpp:51-54 | rows 1..3 of a unit-stride range compose to a single row |
| Slices.ComposeLoses | include/matrix_slice.hpp:51-54 | a requested start other than 0 always leaves the composed range shorter than the requested one |
| Slices.ComposeUnit | include/matrix_slice.hpp:51-54 | the unit range `{k, k + 1}` composes to a valid range if and only if `k` is at most the parent stride, and then keeps its one position if and only if `k` is 0 |
| MatrixSlices.Make | include/matrix_slice.hpp:20-30 | the constructor keeps extents and ranges, and has `rows()` and `cols()` equal to the ranges' sizes |
| MatrixSlices.Size | include/matrix_slice.hpp:41 | `size()` is the number of offsets the element loops visit |
| MatrixSlices.CellsAt | include/matrix_slice.hpp:32-36 | element `(i, j)` is visited at position `i * cols() + j`, at offset `start + i * strides[0] + j * strides[1]` |
| MatrixSlices.CellsAtFlat | include/matrix_slice.hpp:32-36 | every visited position is some in-range element `(i, j)` |
| MatrixSlices.InBufferCells | include/matrix_slice.hpp:32-36 | if every element resolves below `n`, so does every visited offset |
| MatrixSlices.MakeResolvesParentCell | include/matrix_slice.hpp:20-36 | element `(i, j)` of a constructed descriptor is parent cell `(rows.Pos(i), cols.Pos(j))` in row-major order, below `extents[0] * extents[1]` |
| MatrixSlices.MakeInjective | include/matrix_slice.hpp:20-36 | distinct in-range index pairs of a constructed descriptor resolve to distinct offsets |
| MatrixSlices.OffsetInjective | include/matrix_slice.hpp:32-36 | the same, for any descriptor the constructor built |
| MatrixSlices.CellsDistinct | include/matrix_slice.hpp:32-36 | the element loops visit each cell of a constructed descriptor once |
| MatrixSlices.CellsInParent | include/matrix_slice.hpp:20-36 | every element of a constructed descriptor lies in the parent's `originSize()` cells |
| MatrixSlices.Compose | include/matrix_slice.hpp:46-57 | a slice of a slice is a constructed descriptor over the same extents, with the strides multiplied |
| MatrixSlices.ComposeShape | include/matrix_slice.hpp:46-57 | the composed rows and columns never exceed the requested ones, and equal them if and only if the requested starts are 0 |
| MatrixSlices.ComposeResolves | include/matrix_slice.hpp:46-57 | composed `(i, j)` resolves to the parent's element `(rows.Pos(i), cols.Pos(j))` if and only if, in each dimension, the parent stride is 1 or the requested start is 0 |
| SliceTests.SliceScenario | tests/test_main.cpp:54 | the owner's slice `(0..2, 1..3)` of the tests' 3 by 4 matrix starts at offset 1 with rows 3 apart |
| SliceTests.SliceScenarioCells | tests/test_main.cpp:57-63 | that view is 2 by 2 and, over the flattened initializer list of the test, holds 2, 3, 5 and 6, so its second row is not the 6 and 7 the test expects |
| SliceTests.SliceOfSliceRows | tests/test_main.cpp:66 | the row half of the slice of that view |
| SliceTests.SliceOfSliceCols | tests/test_main.cpp:66 | the column half of the slice of that view |
| SliceTests.SliceOfSliceScenario | tests/test_main.cpp:66 | the slice `(0..1, 0..2)` of that view keeps start 1 and its ranges, but rebuilds the row distance as 4 |
| SliceTests.SliceOfSliceScenarioCells | tests/test_main.cpp:67-71 | the slice of the slice is 1 by 2 and, over the flattened test list, holds 2 and 3, as the test expects |
| SliceTests.StridedScenario | tests/test_main.cpp:74 | the owner's strided slice `(0..3 by 2, 0..4 by 2)` has rows 6 apart and columns 2 apart from offset 0 |
| SliceTests.StridedScenarioCells | tests/test_main.cpp:74-82 | under floor sizing it has 1 row where the test's 2 by 2 matrix has 2, so it cannot equal it; over the flattened test list its row holds 1 and 3 |
| MatrixRefs.MatrixRef.Size | include/matrix_ref.hpp:30 | `size()` is the number of offsets the element loops visit |
| MatrixRefs.MatrixRef.Get | include/matrix_ref.hpp:33-43 | an in-range element is the buffer cell its row-major position in the view resolves to |
| MatrixRefs.MatrixRef.Set | include/matrix_ref.hpp:33-37 | a write changes only that element's cell, and the element then reads back the value written |
| MatrixRefs.MatrixRef.Sub | include/matrix_ref.hpp:46-52 | a view of the same buffer with the composed descriptor, inside the buffer whenever the parent's extents fit it (`Fits`) |
| MatrixRefs.MatrixRef.SubRow | include/matrix_ref.hpp:54-60 | a view of the same buffer with at most one row selected |
| MatrixRefs.MatrixRef.SubCol | include/matrix_ref.hpp:62-68 | a view of the same buffer with at most one column selected |
| MatrixRefs.SubRowReach | include/matrix_ref.hpp:54-60 | a row can be taken only up to the view's row stride, and the result has one row if and only if the row is 0 |
| MatrixRefs.SubColReach | include/matrix_ref.hpp:62-68 | a column can be taken only up to the view's column stride, and the result has one column if and only if the column is 0 |
| MatrixRefs.SubRowOneEmpty | include/matrix_ref.hpp:54-60 | on a view with row stride 1, such as a whole matrix, row 1 comes back empty |
| MatrixRefs.SubRowBeyondOne | include/matrix_ref.hpp:54-60 | on a view with row stride 1, no row from 2 on can be taken |
| MatrixRefs.MatrixRef.Apply | include/matrix_ref.hpp:71-79 | the buffer becomes `f` applied to each element's cell in row-major order |
| MatrixRefs.MatrixRef.ApplyRow | include/matrix_ref.hpp:74-76 | one pass of the inner loop applies `f` to the cells of row `i` in order |
| MatrixRefs.MatrixRef.Apply2 | include/matrix_ref.hpp:81-95 | with equal shapes, cell by cell in row-major order, each element becomes `f` of itself and `mr(row, col)`, read as the buffer then stands |
| MatrixRefs.MatrixRef.Apply2Row | include/matrix_ref.hpp:89-91 | one pass of the inner loop, for row `i` |
| MatrixRefs.ApplyCell | include/matrix_ref.hpp:71-79 | for a constructed descriptor, `apply(f)` transforms each element's cell exactly once and leaves unreached cells unchanged |
| MatrixRefs.Apply2Cell | include/matrix_ref.hpp:81-95 | over a separate buffer, `apply(mr, f)` sets element `(i, j)` to `f` of its old value and the old `mr(i, j)` |
| MatrixRefs.Equal | include/matrix_ref.hpp:97-110 | `==` is true if and only if the shapes agree and every pair of elements is equal |
| MatrixRefs.SameElementsReflexive | include/matrix_ref.hpp:102-109 | every view has the same elements as itself, so `==` is reflexive |
| Buffers.MapCells | include/matrix_ref.hpp:71-79 | the sequential effect of `apply(f)` leaves the buffer length unchanged |
| Buffers.MapCellsAppend | include/matrix_ref.hpp:73-77 | visiting two runs of cells is visiting the second on the buffer the first left |
| Buffers.MapCellsAt | include/matrix_ref.hpp:71-79 | with no cell repeated, each visited cell is transformed once and the others keep their values |
| Buffers.ZipCells | include/matrix_ref.hpp:81-95 | the sequential effect of `apply(mr, f)` leaves the buffer length unchanged |
| Buffers.ZipCellsAppend | include/matrix_ref.hpp:88-92 | visiting two runs of cell pairs is visiting the second on the buffer the first left |
| Buffers.ZipCellsAt | include/matrix_ref.hpp:81-95 | with distinct destinations read before they are overwritten, each destination gets `f` of its old value and its source's old value, and the others are unchanged |
| Buffers.ZipCellsAtIndex | include/matrix_ref.hpp:81-95 | the same, for the k-th destination |
| Buffers.Gather | include/matrix.hpp:102-111 | the sequential effect of `setFromMatrixRef` leaves the buffer length unchanged |
| Buffers.GatherAt | include/matrix.hpp:102-111 | cell k of the copy holds the k-th visited cell's old value, and the cells past the copied ones are unchanged |
| Matrices.FlattenLength | include/matrix.hpp:90-100 | a list of rows of `w` elements flattens to `rows * w` elements |
| Matrices.FlattenAt | include/matrix.hpp:90-100 | `list[r][c]` lands at flat index `r * w + c` |
| Matrices.ListInitScenario | tests/test_main.cpp:17-27 | the tests' 3 by 4 list fills the buffer with 1 to 12 in order |
| Matrices.OwnerSlice | include/matrix.hpp:57-65 | the owner's slice selects `rows.size()` by `cols.size()` elements |
| Matrices.OwnerRowSlice | include/matrix.hpp:67-75 | the `(row, slice)` form selects 1 row of `cols.size()` elements |
| Matrices.OwnerColSlice | include/matrix.hpp:77-85 | the `(slice, col)` form selects `rows.size()` rows of 1 element |
| Matrices.OwnerSliceResolves | include/matrix.hpp:62-63 | element `(i, j)` of the owner's slice is at `rows.Pos(i) * Nrows + cols.Pos(j)` |
| Matrices.OwnerSliceIsMakeIff | include/matrix.hpp:62-63 | the owner's slice equals the constructor's descriptor if and only if `Nrows == Ncols` |
| Matrices.OwnerSliceMisreadsNonSquare | include/matrix.hpp:62-63 | on the tests' 3 by 4 matrix, element `(1, 0)` of slice `(0..2, 1..3)` reads offset 4 (value 5), not offset 5 (value 6) |
| Matrices.OwnerSliceOfThreeByTwo | include/matrix.hpp:62-63 | the full slice of a 3 by 2 matrix has row stride 3 |
| Matrices.OwnerSliceEscapesBuffer | include/matrix.hpp:62-63 | that slice sends element `(2, 1)` to offset 7, past the 6 cells of the buffer |
| Matrices.SquareOwnerSliceInBuffer | include/matrix.hpp:57-65 | on a square matrix every element of the owner's slice is in the buffer |
| Matrices.Matrix.constructor | include/matrix.hpp:20 | a default matrix has `Nrows` rows, `Ncols` columns and a fresh buffer of `Nrows * Ncols` elements |
| Matrices.Matrix.FromList | include/matrix.hpp:27-30 | the list constructor stores the flattened list, so element `(i, j)` is `list[i][j]` |
| Matrices.Matrix.FromView | include/matrix.hpp:37-42 | the view constructor gives element `(i, j)` the view's element `(i, j)` |
| Matrices.Matrix.Size | include/matrix.hpp:88 | the size is the buffer length |
| Matrices.Matrix.Get | include/matrix.hpp:88 | element `(i, j)` is in the row-major buffer |
| Matrices.Matrix.AssignList | include/matrix.hpp:90-100 | `setFromInitList` leaves the flattened list in the buffer, with `(i, j)` holding `list[i][j]` |
| Matrices.Matrix.AssignListRow | include/matrix.hpp:94-99 | one pass of the outer loop appends row `r` after the cells already filled |
| Matrices.Matrix.AssignView | include/matrix.hpp:102-111 | `setFromMatrixRef` copies the view's elements in row-major order from cell 0 on, each read seeing the copies already made |
| Matrices.Matrix.AssignViewRow | include/matrix.hpp:106-110 | one pass of the outer loop copies row `r` of the view after the cells already filled |
| Matrices.Matrix.View | include/matrix_ref.hpp:112-116 | the whole matrix as a view over its own buffer, resolving `(i, j)` to `i * Ncols + j`, as `MatrixRef == Matrix` compares against |
| Matrices.Matrix.Sub | include/matrix.hpp:57-65 | a view of this buffer, with no copy, of `rows.size()` by `cols.size()` elements |
| Matrices.Matrix.SubRow | include/matrix.hpp:67-75 | a view of this buffer of 1 row of `cols.size()` elements |
| Matrices.Matrix.SubCol | include/matrix.hpp:77-85 | a view of this buffer of `rows.size()` rows of 1 element |
| Matrices.GatherCell | include/matrix.hpp:102-111 | from a separate view, cell `i * Ncols + j` of the copy is the view's element `(i, j)` |
| Matrices.EqualsMatrix | include/matrix_ref.hpp:112-116 | a view equals a matrix if and only if the shapes agree and every element pair is equal |
| NSlices.CanonicalStrides | vector_based/matrix_slice.hpp:28 | each canonical stride is the product of the extents after it |
| NSlices.InnerProduct | vector_based/matrix_slice.hpp:64 | the left fold of `std::inner_product` is its initial value plus the dot product |
| NSlices.Default | vector_based/matrix_slice.hpp:15-21 | the default descriptor has size 1, start 0, every extent 0 and every stride 1 |
| NSlices.DefaultIsEmpty | vector_based/matrix_slice.hpp:15-21 | no index tuple is in bounds of a default descriptor of positive order |
| NSlices.FromStart | vector_based/matrix_slice.hpp:23-29 | the `(start, extents)` constructors keep the start and the extents in order, with canonical strides and the product as size |
| NSlices.FromDims | vector_based/matrix_slice.hpp:49-56 | the extents-only constructor has start 0, the extents in order, canonical strides and their product as the size |
| NSlices.WithStrides | vector_based/matrix_slice.hpp:31-39 | the explicit-strides constructor copies extents and strides verbatim, derives the size from the extents, and does not store its start |
| NSlices.WithStridesIgnoresStart | vector_based/matrix_slice.hpp:31-39 | the start argument of that constructor has no effect on its result |
| NSlices.Resolve | vector_based/matrix_slice.hpp:58-65 | an index tuple resolves to `start + sum of idx[k] * strides[k]` |
| NSlices.ResolveStep | vector_based/matrix_slice.hpp:64 | raising index `k` by `t` adds `t` strides of dimension `k` |
| NSlices.ResolveShift | vector_based/matrix_slice.hpp:64 | moving the start shifts every offset by the same amount |
| NSlices.CanonicalBelowSize | vector_based/matrix_slice.hpp:23-29 | in the canonical layout every in-bounds tuple resolves inside the `size` cells after the start |
| NSlices.CanonicalInjective | vector_based/matrix_slice.hpp:23-29 | in the canonical layout two in-bounds tuples share an offset if and only if they are equal |
| NSlices.Digits | vector_based/matrix_slice.hpp:23-29 | the mixed-radix digits of `k < product(extents)` are an in-bounds tuple that the canonical strides flatten back to `k` |
| NSlices.CanonicalOnto | vector_based/matrix_slice.hpp:23-29 | every one of the `size` cells after the start is the offset of some in-bounds tuple, so with `CanonicalBelowSize` the range is exactly those cells |
| NSlices.SliceDim | vector_based/matrix.hpp:162-168 | fixing index `n` of a dimension drops it and moves the start by `n` of its strides |
| NSlices.SliceDimResolves | vector_based/matrix.hpp:162-185 | an element of a row or column view is the parent's element with the fixed index put back |
| NSlices.SliceDimInBounds | vector_based/matrix.hpp:162-185 | an in-bounds element of the view, with an in-range fixed index put back, is in the parent's bounds |
| NSlices.DoSliceDim | vector_based/matrix.hpp:202-207 | the cut of one dimension takes the selected length (or the rest), keeps the parent stride, and offsets by `start` strides |
| NSlices.RowsDesc | vector_based/matrix.hpp:196-210 | `rows(i, j)` keeps the order of its parent |
| NSlices.ColsDesc | vector_based/matrix.hpp:229-246 | `cols(i, j)` keeps the order of its parent |
| NSlices.RowsDescResolves | vector_based/matrix.hpp:196-210 | element `idx` of `rows(i, j)` is the parent's element with the row index moved down by `i`, and is in the parent's bounds |
| NSlices.ColsDescResolves | vector_based/matrix.hpp:229-246 | element `idx` of `cols(i, j)` is the parent's element with the column index moved right by `i`, and is in the parent's bounds |
| NSlices.Remove | vector_based/matrix.hpp:162-168 | dropping one dimension's entry shifts the later entries down by one |
| NSlices.Insert | vector_based/matrix.hpp:162-168 | putting a fixed index back shifts the later entries up by one |
| NMatrices.AssignedFromView | vector_based/matrix.hpp:53-61 | the descriptor of a copy assigned from a view keeps the view's extents, strides and size, with start 0 |
| NMatrices.AssignedFromViewEscapes | vector_based/matrix.hpp:53-61 | the copy assigned from column view `cols(0, 0)` of a 3 by 3 matrix resolves element `(2, 0)` to offset 6, past its 3 elements |
| NMatrices.FromDimsInBuffer | vector_based/matrix_base.hpp:57-63 | under a descriptor built from extents, every in-bounds element lies inside the buffer |
| NMatrices.Matrix.constructor | vector_based/matrix.hpp:16 | a default matrix has the default descriptor and no elements, which its zero extents account for |
| NMatrices.Matrix.FromExtents | vector_based/matrix.hpp:64-70 | the extents constructor uses the canonical descriptor and allocates exactly `desc_.size` elements |
| NMatrices.Matrix.FromList | vector_based/matrix.hpp:73-85 | list construction leaves start 0, the canonical layout of the list's extents, and `size` elements holding the list |
| NMatrices.Matrix.AssignList | vector_based/matrix.hpp:88-104 | list assignment does the same on a fresh buffer |
| NMatrices.Matrix.FromMatrix | vector_based/matrix.hpp:24-30 | construction from a matrix stores its descriptor and copies its elements |
| NMatrices.Matrix.AssignMatrix | vector_based/matrix.hpp:32-40 | assignment from a matrix does the same, also from itself |
| NMatrices.Matrix.FromView | vector_based/matrix.hpp:43-50 | construction from a view lays out the view's extents canonically and holds the view's elements |
| NMatrices.Matrix.AssignView | vector_based/matrix.hpp:53-61 | assignment from a view copies its descriptor with start reset to 0 and holds its elements |
| NMatrices.Matrix.Size | vector_based/matrix.hpp:119 | `size()` is the number of stored elements, the product of the extents |
| NMatrices.Matrix.Set | vector_based/matrix_base.hpp:57-63 | a write through element access changes only the resolved cell, and the element reads back the value written |
| NMatrices.Matrix.Apply | vector_based/matrix.hpp:276-282 | every stored element becomes `f` of itself |
| NMatrices.Matrix.Apply2 | vector_based/matrix.hpp:285-296 | with equal extents, the k-th element becomes `f` of itself and the k-th element of `m`, also when `m` is this matrix |
| NMatrices.Matrix.Row | vector_based/matrix.hpp:157-168 | `row(n)` and `m[n]` view this buffer with dimension 0 fixed at `n`, one order lower |
| NMatrices.Matrix.Col | vector_based/matrix.hpp:179-185 | `col(n)` views this buffer with dimension 1 fixed at `n`, one order lower |
| NMatrices.Matrix.Rows | vector_based/matrix.hpp:196-210 | the `while` loop over the remaining dimensions builds exactly the `rows(i, j)` descriptor over this buffer |
| NMatrices.Matrix.Cols | vector_based/matrix.hpp:229-246 | the `while` loop builds exactly the `cols(i, j)` descriptor over this buffer |
| NMatrices.Scalar.constructor | vector_based/matrix.hpp:309-312 | `Matrix<T, 0>` holds one element, `x` |
| NMatrices.Scalar.Assign | vector_based/matrix.hpp:314-318 | assignment sets the single element, which `operator()()` then returns |
| NMatrices.Scalar.Size | vector_based/matrix.hpp:321 | the size is 1, the length of its storage |

## Divergences

Where the code's behaviour differs from what its own tests and comments expect, the model follows the code.

- **Floor sizing.** `slice::size` floors (`include/slice.hpp:13`). The
  strided test expects 2 rows for `slice(0, 3, 2)`, which would need a
  ceiling. Both are modelled (`Slice.Size`, `CeilSize`) and compared. The
  test's expectation is not claimed.
- **Composition.** Composition adds the requested start without scaling it
  by the parent stride (`include/matrix_slice.hpp:51-54`). Its `end` is set
  `size * stride` past the parent start, so the requested size survives only
  when the requested start is 0.
  `ComposeShape` and `ComposeResolves` state exactly when the composed view
  selects what was asked for.
- **Row pitch of the owner's slices.** `Matrix::operator()` uses `Nrows` as
  the distance between rows (`include/matrix.hpp:62, 72, 82`). The
  descriptor uses `extents[1]`, and the tests need the column count. The
  model keeps the `Nrows` pitch (`OwnerSlice`). It proves that this agrees
  with the constructor exactly on square matrices, that it misreads the
  tests' 3 by 4 slice, and that it escapes the buffer of a 3 by 2 matrix.
- **Missing constructor.** `include/matrix.hpp:63`, `73` and `83` call a
  4-argument `MatrixSlice` constructor (strides, extents, counts, start) that
  does not exist; only the 3-argument one does. The model builds the
  descriptor those arguments describe. Its stored ranges are the requested
  ranges, so the row and column counts are `rows.size()` and `cols.size()`.
- **Rows and columns of a view.** `MatrixRefs.MatrixRef.Sub`, `SubRow`
  and `SubCol` require the composed ranges to be valid ranges inside the
  parent, the conditions under which the code's `size()` neither wraps nor
  divides by zero. Because composition does not scale the requested start
  (see Composition), `{row, row + 1}` is a valid range only for rows up to
  the view's row stride, and keeps its row only for row 0. On a view with
  row stride 1, such as a whole matrix, `SubRow` of row 1 gives an empty
  view and rows from 2 on are outside its precondition
  (`SubRowReach`, `SubRowOneEmpty`, `SubRowBeyondOne`); columns behave
  alike (`SubColReach`).
- **Zero strides.** `{row, row + 1}` (`include/matrix_ref.hpp:59`, `67`) and
  the tests' `slice(0, 2)` leave the stride at 0, which divides by zero in
  `size()`. The model gives them stride 1, and `Slice.Valid` demands a stride
  of at least 1.
- **Unset start.** The `(start, extents, strides)` constructor
  (`vector_based/matrix_slice.hpp:31-39`) never stores its start. The model
  takes the start it ends up with as a parameter (`WithStrides`).
- **Same-signature constructors.** `vector_based/matrix_slice.hpp:23-29` and
  `41-47` differ only in how the list is passed. Both are `FromStart`.
- **Code that does not compile or is undefined as written.**
  - `this(row, col)` in `include/matrix_ref.hpp:90` is modelled as the
    element `(row, col)`.
  - `include/matrix.hpp:44-49` falls off its end without a `return`, which
    compiles but is undefined behaviour; it is modelled as the assignment it
    names.
  - `mr.rows()` / `mr.cols()` in `include/matrix.hpp:40, 47, 106-107` are
    modelled as `n_rows()` / `n_cols()`.
  - `MatrixRef<T, Nrows2, Ncols2>` and `MatrixRef<T, Nrows, Ncols>`
    (`include/matrix.hpp:38, 45, 56, 66, 76`) name a class whose template
    takes only the element type (`include/matrix_ref.hpp:12`); the model's
    view has that one parameter.
  - `static_assert(list.size() == Nrows)` and
    `static_assert(row.size() == Ncols)` (`include/matrix.hpp:93, 95`), and
    `static_assert(exts.size() == N)` (`vector_based/matrix_slice.hpp:26,
    34-35, 45`), test values that are not constant expressions. The model
    states them as preconditions.
  - `extents { exts }` (`vector_based/matrix_slice.hpp:42-43`) initialises
    a `std::array` from an `initializer_list`. The model copies the list
    into the extents, as the by-value form does.
  - `MatrixBase{x.descriptor().extents}` in `vector_based/matrix.hpp:45`
    passes an array where single extents are expected. The model takes the
    evident intent: the canonical layout of those extents
    (`NMatrices.Matrix.FromView`).
- **Size and strides of `rows` / `cols`.** `rows(i, j)` and `cols(i, j)`
  leave the descriptor's `size` at the default 1 (`RowsDesc`, `ColsDesc`).
  Assignment from a view keeps the view's strides over a compact copy
  (`vector_based/matrix.hpp:56-59`), so such a copy can address cells past
  its elements (`AssignedFromViewEscapes`).
- **`MatrixRef == Matrix`.** `include/matrix_ref.hpp:115` forwards to a
  comparison of `Matrix` with a view, which is not part of this model. It is
  modelled as the view compared with the whole matrix as a view.

## Left out

- Unsigned wrap-around of `size_t`: all arithmetic is on unbounded naturals.
  The ranges whose `end - start` would wrap are excluded by `Slice.Valid`.
- Printing (`operator<<` of `include/slice.hpp` and `vector_based/matrix_base.hpp`): I/O.
- `include/template_utils.hpp`, `vector_based/traits.hpp`, `include/matrix_fwd.hpp`, `include/matrix_impl.hpp`:
  compile-time type checks and declarations with no run-time behaviour.
- `static_assert` convertibility checks, defaulted copy and move members: no behaviour to model.
- `include/matrix_base.hpp` and the `MatrixBase<T, Nrows, Ncols>` that
  supplies the 2-D owner's `n_rows`, `size` and element access are not part
  of this model. `Matrices.Matrix.Get` reads the row-major cell `i * Ncols + j`.
- The helpers of the N-D draft's `matrix_impl` are not part of this model.
  They are replaced by stand-ins that follow the canonical row-major
  layout, and no property of the helpers themselves is claimed:
  - `compute_strides` and `compute_size` by `CanonicalStrides` and `Product`;
  - `slice_dim` by `SliceDim`;
  - `do_slice_dim` and `do_slice_dim2`, for the ranges rows and columns pass, by `DoSliceDim`;
  - `check_bounds` by `InBounds`.
- `derive_extents` and `insert_flat`: the list is given as its extents and
  its flattened elements.
- The N-D `operator()(slices...)`: it depends entirely on `do_slice`,
  defined in `matrix_impl`, which is not modelled, so it is not modelled
  either.
- The N-D `MatrixRef` and its iterators (`vector_based/matrix_ref.hpp`) are
  not part of this model, and neither is the N-D `apply(m, f)` with a view
  as its operand (`vector_based/matrix.hpp:286`, admitted by the operand
  check of `vector_based/traits.hpp:35-39`); `NMatrices.Matrix.Apply2`
  takes a `Matrix` operand only. A view's elements, in the order its iterators
  yield them, are a `contents` parameter of `FromView` and `AssignView`.
- Virtual dispatch of `data()`: the buffer is a field.
- The default-initialised contents of new buffers: no value is assumed for
  them.
- `NMatrices.Matrix.Get` and `NMatrices.Matrix.Set`: additionally require
  the resolved offset to lie in the buffer. Descriptors from `FromExtents` and `FromList` always meet
  this (`FromDimsInBuffer`); after `AssignView` it can fail.
- `NMatrices.Scalar.constructor`: the default argument `x = T {}`
  (`vector_based/matrix.hpp:309`) is not modelled, since a generic type
  here has no default value; the constructor always takes `x`.
- `MatrixRefs.MatrixRef.Sub`, `MatrixRefs.MatrixRef.SubRow` and
  `MatrixRefs.MatrixRef.SubCol`: require the composed ranges to be valid
  ranges inside the parent (`MatrixSlices.CanCompose`), so rows and columns
  beyond the view's stride, which the code would size with a wrapped
  `end - start`, are outside the model (see "Rows and columns of a view").
- `NMatrices.Matrix.AssignList`, `NMatrices.Matrix.AssignMatrix` and
  `NMatrices.Matrix.AssignView`: the model gives the matrix a fresh buffer.
  The code reuses its vector (`elems_.clear()` and `reserve`,
  `vector_based/matrix.hpp:90, 100`; `elems_.assign`, lines 38 and 59),
  which keeps the old storage whenever its capacity suffices. So a view
  taken before the assignment then sees the new elements, or dangles after
  a reallocation. That storage reuse and aliasing are not modelled.
