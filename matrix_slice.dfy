/** The 2-D descriptor `MatrixSlice` of the 2-D draft: the extents of the
    parent matrix, the requested row and column ranges, and the start offset
    and strides derived from them, which resolve `(i, j)` to a flat offset
    into the parent's row-major buffer. */
module MatrixSlices {
  import Arith
  import opened Slices

  datatype MatrixSlice = MatrixSlice(
    extents: (nat, nat),   // rows and columns of the parent matrix
    strides: (nat, nat),   // flat distance between neighbouring rows, columns
    start: nat,            // flat offset of element (0, 0)
    rowSlice: Slice,
    colSlice: Slice)

  /** Both ranges can be sized (see `Slice.Valid`). */
  predicate Valid(d: MatrixSlice) {
    d.rowSlice.Valid() && d.colSlice.Valid()
  }

  function Rows(d: MatrixSlice): nat
    requires Valid(d)
  {
    d.rowSlice.Size()
  }

  function Cols(d: MatrixSlice): nat
    requires Valid(d)
  {
    d.colSlice.Size()
  }

  /** What the constructor demands of its arguments: both ranges end inside
      the parent, and both strides are at least one. */
  predicate CanMake(extents: (nat, nat), rows: Slice, cols: Slice) {
    rows.Valid() && cols.Valid() && rows.end <= extents.0 && cols.end <= extents.1
  }

  /** The 3-argument constructor: start and strides follow from a row-major
      parent whose row pitch is its column count. */
  function Make(extents: (nat, nat), rows: Slice, cols: Slice): (d: MatrixSlice)
    requires CanMake(extents, rows, cols)
    ensures Valid(d) && d.extents == extents && d.rowSlice == rows && d.colSlice == cols
    ensures Rows(d) == rows.Size() && Cols(d) == cols.Size()
  {
    MatrixSlice(extents, (rows.stride * extents.1, cols.stride),
                rows.start * extents.1 + cols.start, rows, cols)
  }

  /** The descriptors the constructor builds. */
  predicate Consistent(d: MatrixSlice) {
    CanMake(d.extents, d.rowSlice, d.colSlice) && d == Make(d.extents, d.rowSlice, d.colSlice)
  }

  /** `operator()(i, j)`: the flat offset of element `(i, j)`. */
  function Offset(d: MatrixSlice, i: nat, j: nat): nat
    requires Valid(d) && i < Rows(d) && j < Cols(d)
  {
    d.start + i * d.strides.0 + j * d.strides.1
  }

  /** `size()`: the number of elements, one for each offset of `Cells`. */
  function Size(d: MatrixSlice): (n: nat)
    requires Valid(d)
    ensures n == |Cells(d)|
  {
    Rows(d) * Cols(d)
  }

  /** The offsets of row `i`, column after column. */
  function RowCells(d: MatrixSlice, i: nat): (c: seq<nat>)
    requires Valid(d) && i < Rows(d)
    ensures |c| == Cols(d)
  {
    seq(Cols(d), j requires 0 <= j < Cols(d) => Offset(d, i, j))
  }

  /** The first `j + 1` offsets of row `i` extend the first `j` by element `(i, j)`. */
  lemma RowCellsSnoc(d: MatrixSlice, i: nat, j: nat)
    requires Valid(d) && i < Rows(d) && j < Cols(d)
    ensures RowCells(d, i)[..j + 1] == RowCells(d, i)[..j] + [Offset(d, i, j)]
  {
  }

  /** The offsets of the first `r` rows, row after row. */
  function CellsUpTo(d: MatrixSlice, r: nat): (c: seq<nat>)
    requires Valid(d) && r <= Rows(d)
    ensures |c| == r * Cols(d)
  {
    if r == 0 then []
    else
      Arith.Distrib(r - 1, 1, Cols(d));
      CellsUpTo(d, r - 1) + RowCells(d, r - 1)
  }

  /** The offsets of all elements in row-major order of `(i, j)`: the order
      in which the nested loops over rows, then columns, visit them. */
  function Cells(d: MatrixSlice): (c: seq<nat>)
    requires Valid(d)
    ensures |c| == Rows(d) * Cols(d)
  {
    CellsUpTo(d, Rows(d))
  }

  lemma {:induction false} CellsUpToAt(d: MatrixSlice, r: nat, i: nat, j: nat)
    requires Valid(d) && r <= Rows(d) && i < r && j < Cols(d)
    ensures i * Cols(d) + j < r * Cols(d) && CellsUpTo(d, r)[i * Cols(d) + j] == Offset(d, i, j)
  {
    Arith.RowMajorBelow(i, j, r, Cols(d));
    if i < r - 1 {
      CellsUpToAt(d, r - 1, i, j);
      Arith.RowMajorBelow(i, j, r - 1, Cols(d));
    }
  }

  /** Element `(i, j)` sits at position `i * Cols(d) + j` of `Cells(d)`. */
  lemma CellsAt(d: MatrixSlice, i: nat, j: nat)
    requires Valid(d) && i < Rows(d) && j < Cols(d)
    ensures i * Cols(d) + j < |Cells(d)| && Cells(d)[i * Cols(d) + j] == Offset(d, i, j)
  {
    CellsUpToAt(d, Rows(d), i, j);
  }

  /** Element `(i, j)` of two equal-shaped descriptors sits at the same
      position of their cells. */
  lemma CellIndex(d: MatrixSlice, e: MatrixSlice, i: nat, j: nat) returns (k: nat)
    requires Valid(d) && Valid(e) && Rows(d) == Rows(e) && Cols(d) == Cols(e)
    requires i < Rows(d) && j < Cols(d)
    ensures k < |Cells(d)| && Cells(d)[k] == Offset(d, i, j)
    ensures k < |Cells(e)| && Cells(e)[k] == Offset(e, i, j)
  {
    k := i * Cols(d) + j;
    CellsAt(d, i, j);
    CellsAt(e, i, j);
  }

  lemma {:induction false} CellsUpToFlat(d: MatrixSlice, r: nat, k: nat) returns (i: nat, j: nat)
    requires Valid(d) && r <= Rows(d) && k < r * Cols(d)
    ensures k == i * Cols(d) + j && i < r && j < Cols(d)
    ensures CellsUpTo(d, r)[k] == Offset(d, i, j)
  {
    if r == 0 {
      assert false;
    } else if k < (r - 1) * Cols(d) {
      i, j := CellsUpToFlat(d, r - 1, k);
    } else {
      i, j := r - 1, k - (r - 1) * Cols(d);
      Arith.Distrib(r - 1, 1, Cols(d));
    }
  }

  /** Position `k` of `Cells(d)` is element `(i, j)` with `k == i * Cols(d) + j`. */
  lemma CellsAtFlat(d: MatrixSlice, k: nat) returns (i: nat, j: nat)
    requires Valid(d) && k < |Cells(d)|
    ensures k == i * Cols(d) + j && i < Rows(d) && j < Cols(d)
    ensures Cells(d)[k] == Offset(d, i, j)
  {
    i, j := CellsUpToFlat(d, Rows(d), k);
  }

  /** Every element of `d` resolves below `n`. */
  predicate InBuffer(d: MatrixSlice, n: nat) {
    Valid(d) && forall i, j :: 0 <= i < Rows(d) && 0 <= j < Cols(d) ==> Offset(d, i, j) < n
  }

  lemma {:induction false} InBufferUpTo(d: MatrixSlice, n: nat, r: nat)
    requires InBuffer(d, n) && r <= Rows(d)
    ensures forall k :: 0 <= k < |CellsUpTo(d, r)| ==> CellsUpTo(d, r)[k] < n
  {
    if r > 0 {
      InBufferUpTo(d, n, r - 1);
    }
  }

  /** The offsets the element loops visit all lie below `n`. */
  lemma InBufferCells(d: MatrixSlice, n: nat)
    requires InBuffer(d, n)
    ensures forall k :: 0 <= k < |Cells(d)| ==> Cells(d)[k] < n
  {
    InBufferUpTo(d, n, Rows(d));
  }

  /** Offset of a constructed descriptor: element `(i, j)` is the parent's
      cell at row `rows.Pos(i)` and column `cols.Pos(j)` in row-major order,
      so the offset stays inside the parent's `extents.0 * extents.1` cells. */
  lemma MakeResolvesParentCell(extents: (nat, nat), rows: Slice, cols: Slice, i: nat, j: nat)
    requires CanMake(extents, rows, cols) && i < rows.Size() && j < cols.Size()
    ensures rows.Pos(i) < extents.0 && cols.Pos(j) < extents.1
    ensures Offset(Make(extents, rows, cols), i, j) == rows.Pos(i) * extents.1 + cols.Pos(j)
    ensures Offset(Make(extents, rows, cols), i, j) < extents.0 * extents.1
  {
    PosBelowEnd(rows, i);
    PosBelowEnd(cols, j);
    var x, y := rows.Pos(i), cols.Pos(j);
    Arith.RowMajorBelow(x, y, extents.0, extents.1);
    Arith.Distrib(rows.start, i * rows.stride, extents.1);
    Arith.MulAssoc(i, rows.stride, extents.1);
  }

  /** Distinct in-range index pairs of a constructed descriptor resolve to
      distinct offsets. */
  lemma MakeInjective(extents: (nat, nat), rows: Slice, cols: Slice, i: nat, j: nat, p: nat, q: nat)
    requires CanMake(extents, rows, cols)
    requires i < rows.Size() && j < cols.Size() && p < rows.Size() && q < cols.Size()
    requires Offset(Make(extents, rows, cols), i, j) == Offset(Make(extents, rows, cols), p, q)
    ensures i == p && j == q
  {
    MakeResolvesParentCell(extents, rows, cols, i, j);
    MakeResolvesParentCell(extents, rows, cols, p, q);
    Arith.RowMajorUnique(rows.Pos(i), cols.Pos(j), rows.Pos(p), cols.Pos(q), extents.1);
    Arith.MulCancel(i, p, rows.stride);
    Arith.MulCancel(j, q, cols.stride);
  }

  /** Distinct in-range index pairs of a constructed descriptor resolve to
      distinct offsets. */
  lemma OffsetInjective(d: MatrixSlice, i: nat, j: nat, p: nat, q: nat)
    requires Consistent(d)
    requires i < Rows(d) && j < Cols(d) && p < Rows(d) && q < Cols(d)
    requires Offset(d, i, j) == Offset(d, p, q)
    ensures i == p && j == q
  {
    MakeInjective(d.extents, d.rowSlice, d.colSlice, i, j, p, q);
  }

  /** Two positions of a constructed descriptor's cells hold different offsets. */
  lemma CellsDistinctAt(d: MatrixSlice, a: nat, b: nat)
    requires Consistent(d) && a < b < |Cells(d)|
    ensures Cells(d)[a] != Cells(d)[b]
  {
    var i, j := CellsAtFlat(d, a);
    var p, q := CellsAtFlat(d, b);
    if Cells(d)[a] == Cells(d)[b] {
      OffsetInjective(d, i, j, p, q);
      assert false;
    }
  }

  /** A constructed descriptor lists every cell once. */
  lemma CellsDistinct(d: MatrixSlice)
    requires Consistent(d)
    ensures forall a, b :: 0 <= a < b < |Cells(d)| ==> Cells(d)[a] != Cells(d)[b]
  {
    forall a, b | 0 <= a < b < |Cells(d)| ensures Cells(d)[a] != Cells(d)[b] {
      CellsDistinctAt(d, a, b);
    }
  }

  /** Every element of a constructed descriptor lies inside the parent. */
  lemma CellsInParent(d: MatrixSlice)
    requires Consistent(d)
    ensures InBuffer(d, d.extents.0 * d.extents.1)
  {
    forall i, j | 0 <= i < Rows(d) && 0 <= j < Cols(d)
      ensures Offset(d, i, j) < d.extents.0 * d.extents.1
    {
      MakeResolvesParentCell(d.extents, d.rowSlice, d.colSlice, i, j);
    }
  }

  /** What `operator()(slice, slice)` demands: its own checks that the
      requested ranges end inside the parent's extents, and the checks of
      the constructor it calls on the composed ranges. */
  predicate CanCompose(d: MatrixSlice, rows: Slice, cols: Slice) {
    && rows.Valid() && cols.Valid()
    && rows.end <= d.extents.0 && cols.end <= d.extents.1
    && CanMake(d.extents, Slices.Compose(d.rowSlice, rows), Slices.Compose(d.colSlice, cols))
  }

  /** `operator()(slice, slice)`: a slice of a slice, over the same parent. */
  function Compose(d: MatrixSlice, rows: Slice, cols: Slice): (r: MatrixSlice)
    requires CanCompose(d, rows, cols)
    ensures Consistent(r) && r.extents == d.extents
    ensures r.rowSlice.stride == d.rowSlice.stride * rows.stride
    ensures r.colSlice.stride == d.colSlice.stride * cols.stride
  {
    Make(d.extents, Slices.Compose(d.rowSlice, rows), Slices.Compose(d.colSlice, cols))
  }

  /** The composed descriptor never holds more rows or columns than were
      requested, and keeps the requested number exactly when the requested
      start is 0. */
  lemma ComposeShape(d: MatrixSlice, rows: Slice, cols: Slice)
    requires Valid(d) && CanCompose(d, rows, cols)
    ensures Rows(Compose(d, rows, cols)) <= rows.Size()
    ensures Cols(Compose(d, rows, cols)) <= cols.Size()
    ensures Rows(Compose(d, rows, cols)) == rows.Size() <==> rows.start == 0
    ensures Cols(Compose(d, rows, cols)) == cols.Size() <==> cols.start == 0
  {
    ComposeSizeAtMost(d.rowSlice, rows);
    ComposeSizeAtMost(d.colSlice, cols);
    if rows.start == 0 {
      ComposeFromZero(d.rowSlice, rows);
    } else {
      ComposeLoses(d.rowSlice, rows);
    }
    if cols.start == 0 {
      ComposeFromZero(d.colSlice, cols);
    } else {
      ComposeLoses(d.colSlice, cols);
    }
  }

  /** Element `(i, j)` of a slice of a constructed descriptor `d` resolves
      to element `(rows.Pos(i), cols.Pos(j))` of `d` exactly when, in each
      dimension, the parent stride is 1 or the requested start is 0. */
  lemma ComposeResolves(d: MatrixSlice, rows: Slice, cols: Slice, i: nat, j: nat)
    requires Consistent(d) && CanCompose(d, rows, cols)
    requires rows.end <= Rows(d) && cols.end <= Cols(d)
    requires i < Rows(Compose(d, rows, cols)) && j < Cols(Compose(d, rows, cols))
    ensures rows.Pos(i) < Rows(d) && cols.Pos(j) < Cols(d)
    ensures Offset(Compose(d, rows, cols), i, j) == Offset(d, rows.Pos(i), cols.Pos(j)) <==>
      (d.rowSlice.stride == 1 || rows.start == 0) && (d.colSlice.stride == 1 || cols.start == 0)
  {
    var c := Compose(d, rows, cols);
    ComposeShape(d, rows, cols);
    PosBelowEnd(rows, i);
    PosBelowEnd(cols, j);
    MakeResolvesParentCell(d.extents, c.rowSlice, c.colSlice, i, j);
    MakeResolvesParentCell(d.extents, d.rowSlice, d.colSlice, rows.Pos(i), cols.Pos(j));
    ComposePos(d.rowSlice, rows, i);
    ComposePos(d.colSlice, cols, j);
    Arith.RowMajorEqIff(c.rowSlice.Pos(i), c.colSlice.Pos(j),
      d.rowSlice.Pos(rows.Pos(i)), d.colSlice.Pos(cols.Pos(j)), d.extents.1);
  }
}
