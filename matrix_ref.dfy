/** The non-owning view `MatrixRef` of the 2-D draft: a buffer and a
    descriptor. Copies of a view share the buffer, and every view cut from
    a view shares it too, so writes through one are seen through all. */
module MatrixRefs {
  import Arith
  import opened Slices
  import opened Buffers
  import MatrixSlices

  datatype MatrixRef<T> = MatrixRef(data: array<T>, desc: MatrixSlices.MatrixSlice) {

    /** Both ranges can be sized and every element resolves to a cell of
        the buffer. */
    predicate Valid() {
      MatrixSlices.InBuffer(desc, data.Length)
    }

    /** The parent extents the descriptor was cut from fit the buffer. */
    predicate Fits() {
      desc.extents.0 * desc.extents.1 <= data.Length
    }

    function NRows(): nat
      requires MatrixSlices.Valid(desc)
    {
      MatrixSlices.Rows(desc)
    }

    function NCols(): nat
      requires MatrixSlices.Valid(desc)
    {
      MatrixSlices.Cols(desc)
    }

    /** `size()`: one element for each cell the element loops visit. */
    function Size(): (n: nat)
      requires MatrixSlices.Valid(desc)
      ensures n == |MatrixSlices.Cells(desc)|
    {
      NRows() * NCols()
    }

    /** `operator()(i, j)` read: the buffer cell that the element's position
        in row-major order of the view resolves to. */
    function Get(i: nat, j: nat): (v: T)
      reads data
      requires Valid() && i < NRows() && j < NCols()
      ensures i * NCols() + j < |MatrixSlices.Cells(desc)|
      ensures MatrixSlices.Cells(desc)[i * NCols() + j] < data.Length
      ensures v == data[MatrixSlices.Cells(desc)[i * NCols() + j]]
    {
      MatrixSlices.CellsAt(desc, i, j);
      data[MatrixSlices.Offset(desc, i, j)]
    }

    /** `operator()(i, j)` write: only the cell of element `(i, j)` changes,
        and reading the element back gives the value written. */
    method Set(i: nat, j: nat, v: T)
      requires Valid() && i < NRows() && j < NCols()
      modifies data
      ensures MatrixSlices.Offset(desc, i, j) < data.Length
      ensures data[..] == old(data[..])[MatrixSlices.Offset(desc, i, j) := v]
      ensures Get(i, j) == v
    {
      MatrixSlices.CellsAt(desc, i, j);
      data[MatrixSlices.Offset(desc, i, j)] := v;
    }

    /** What `operator()(slice, slice)` asserts of its ranges, with what the
        composition and the constructor it calls assert. */
    predicate CanSub(rows: Slice, cols: Slice)
      requires MatrixSlices.Valid(desc)
    {
      && rows.start < NRows() && rows.end <= NRows() && rows.start < rows.end
      && cols.start < NCols() && cols.end <= NCols() && cols.start < cols.end
      && MatrixSlices.CanCompose(desc, rows, cols)
    }

    /** `operator()(slice, slice)`: a view over the same buffer, with no
        element copied; it stays inside the buffer whenever its parent
        extents fit it. */
    function Sub(rows: Slice, cols: Slice): (r: MatrixRef<T>)
      requires MatrixSlices.Valid(desc) && CanSub(rows, cols)
      ensures r.data == data && r.desc == MatrixSlices.Compose(desc, rows, cols)
      ensures r.Fits() == Fits()
      ensures Fits() ==> r.Valid()
    {
      var r := MatrixRef(data, MatrixSlices.Compose(desc, rows, cols));
      if Fits() then
        MatrixSlices.CellsInParent(r.desc);
        r
      else
        r
    }

    /** `operator()(row, slice)`: one row of the view over the same buffer. */
    function SubRow(row: nat, cols: Slice): (r: MatrixRef<T>)
      requires MatrixSlices.Valid(desc)
      requires row < NRows()
      requires cols.start < NCols() && cols.end <= NCols() && cols.start < cols.end
      requires MatrixSlices.CanCompose(desc, Unit(row), cols)
      ensures r.data == data && r.desc == MatrixSlices.Compose(desc, Unit(row), cols)
      ensures r.NRows() <= 1
      ensures Fits() ==> r.Valid()
    {
      var r := MatrixRef(data, MatrixSlices.Compose(desc, Unit(row), cols));
      ComposeSizeAtMost(desc.rowSlice, Unit(row));
      if Fits() then
        MatrixSlices.CellsInParent(r.desc);
        r
      else
        r
    }

    /** `operator()(slice, col)`: one column of the view over the same buffer. */
    function SubCol(rows: Slice, col: nat): (r: MatrixRef<T>)
      requires MatrixSlices.Valid(desc)
      requires col < NCols()
      requires rows.start < NRows() && rows.end <= NRows() && rows.start < rows.end
      requires MatrixSlices.CanCompose(desc, rows, Unit(col))
      ensures r.data == data && r.desc == MatrixSlices.Compose(desc, rows, Unit(col))
      ensures r.NCols() <= 1
      ensures Fits() ==> r.Valid()
    {
      var r := MatrixRef(data, MatrixSlices.Compose(desc, rows, Unit(col)));
      ComposeSizeAtMost(desc.colSlice, Unit(col));
      if Fits() then
        MatrixSlices.CellsInParent(r.desc);
        r
      else
        r
    }

    /** `apply(f)`: `f` applied to each element in row-major order of the
        view; cells the view does not reach keep their values. */
    method Apply(f: T -> T)
      requires Valid()
      modifies data
      ensures Within(MatrixSlices.Cells(desc), data.Length)
      ensures data[..] == MapCells(old(data[..]), MatrixSlices.Cells(desc), f)
    {
      ghost var orig := data[..];
      for i := 0 to NRows()
        invariant Within(MatrixSlices.CellsUpTo(desc, i), |orig|)
        invariant data[..] == MapCells(orig, MatrixSlices.CellsUpTo(desc, i), f)
      {
        ApplyRow(f, i);
        MapCellsAppend(orig, MatrixSlices.CellsUpTo(desc, i), MatrixSlices.RowCells(desc, i), f);
      }
    }

    /** One pass of the inner loop of `apply(f)`: row `i`, column after column. */
    method ApplyRow(f: T -> T, i: nat)
      requires Valid() && i < NRows()
      modifies data
      ensures Within(MatrixSlices.RowCells(desc, i), data.Length)
      ensures data[..] == MapCells(old(data[..]), MatrixSlices.RowCells(desc, i), f)
    {
      ghost var orig := data[..];
      ghost var row := MatrixSlices.RowCells(desc, i);
      ghost var done: seq<nat> := [];
      for j := 0 to NCols()
        invariant done == row[..j] && Within(done, |orig|)
        invariant data[..] == MapCells(orig, done, f)
      {
        var o := MatrixSlices.Offset(desc, i, j);
        MapCellsSnoc(orig, done, o, f);
        data[o] := f(data[o]);
        MatrixSlices.RowCellsSnoc(desc, i, j);
        done := done + [o];
      }
      assert row[..NCols()] == row;
    }

    /** `apply(mr, f)`: each element becomes `f` of itself and the element
        of `mr` at the same `(row, col)`, in row-major order; when `mr`
        views the same buffer, its reads see the writes already made. */
    method Apply2(mr: MatrixRef<T>, f: (T, T) -> T)
      requires Valid() && mr.Valid()
      requires NRows() == mr.NRows() && NCols() == mr.NCols()
      modifies data
      ensures Within(MatrixSlices.Cells(desc), data.Length) && Within(MatrixSlices.Cells(mr.desc), mr.data.Length)
      ensures data[..] == ZipCells(old(data[..]), old(mr.data[..]), mr.data == data,
                                   MatrixSlices.Cells(desc), MatrixSlices.Cells(mr.desc), f)
    {
      ghost var orig, other := data[..], mr.data[..];
      ghost var shared := mr.data == data;
      for i := 0 to NRows()
        invariant Within(MatrixSlices.CellsUpTo(desc, i), |orig|)
        invariant Within(MatrixSlices.CellsUpTo(mr.desc, i), if shared then |orig| else |other|)
        invariant data[..] == ZipCells(orig, other, shared, MatrixSlices.CellsUpTo(desc, i),
                                       MatrixSlices.CellsUpTo(mr.desc, i), f)
        invariant !shared ==> mr.data[..] == other
      {
        Apply2Row(mr, f, i, other);
        ZipCellsAppend(orig, other, shared, MatrixSlices.CellsUpTo(desc, i), MatrixSlices.CellsUpTo(mr.desc, i),
                       MatrixSlices.RowCells(desc, i), MatrixSlices.RowCells(mr.desc, i), f);
      }
    }

    /** One pass of the inner loop of `apply(mr, f)`: row `i`, column after
        column, reading `mr` from `other` unless it shares the buffer. */
    method Apply2Row(mr: MatrixRef<T>, f: (T, T) -> T, i: nat, ghost other: seq<T>)
      requires Valid() && mr.Valid()
      requires NRows() == mr.NRows() && NCols() == mr.NCols() && i < NRows()
      requires mr.data != data ==> mr.data[..] == other
      modifies data
      ensures Within(MatrixSlices.RowCells(desc, i), data.Length)
      ensures Within(MatrixSlices.RowCells(mr.desc, i), if mr.data == data then data.Length else |other|)
      ensures mr.data != data ==> mr.data[..] == other
      ensures data[..] == ZipCells(old(data[..]), other, mr.data == data,
                                   MatrixSlices.RowCells(desc, i), MatrixSlices.RowCells(mr.desc, i), f)
    {
      ghost var orig := data[..];
      ghost var shared := mr.data == data;
      ghost var drow, srow := MatrixSlices.RowCells(desc, i), MatrixSlices.RowCells(mr.desc, i);
      ghost var dst: seq<nat>, src: seq<nat> := [], [];
      for j := 0 to NCols()
        invariant dst == drow[..j] && src == srow[..j]
        invariant Within(dst, |orig|) && Within(src, if shared then |orig| else |other|)
        invariant data[..] == ZipCells(orig, other, shared, dst, src, f)
        invariant !shared ==> mr.data[..] == other
      {
        var o, so := MatrixSlices.Offset(desc, i, j), MatrixSlices.Offset(mr.desc, i, j);
        ZipCellsSnoc(orig, other, shared, dst, src, o, so, f);
        var y := mr.data[so];
        data[o] := f(data[o], y);
        MatrixSlices.RowCellsSnoc(desc, i, j);
        MatrixSlices.RowCellsSnoc(mr.desc, i, j);
        dst, src := dst + [o], src + [so];
      }
      assert drow[..NCols()] == drow && srow[..NCols()] == srow;
    }
  }

  /** For a view made by the descriptor constructor, `apply(f)` transforms
      each cell of an element exactly once and leaves every other cell of
      the buffer as it was. */
  lemma ApplyCell<T>(d: MatrixSlices.MatrixSlice, buf: seq<T>, f: T -> T, p: nat)
    requires MatrixSlices.Consistent(d) && MatrixSlices.InBuffer(d, |buf|) && p < |buf|
    ensures Within(MatrixSlices.Cells(d), |buf|)
    ensures MapCells(buf, MatrixSlices.Cells(d), f)[p] ==
      if p in MatrixSlices.Cells(d) then f(buf[p]) else buf[p]
  {
    MatrixSlices.InBufferCells(d, |buf|);
    MatrixSlices.CellsDistinct(d);
    MapCellsAt(buf, MatrixSlices.Cells(d), f, p);
  }

  /** For a descriptor-made view `d` paired with a view `e` over a separate
      buffer, `apply(mr, f)` sets the cell of element `(i, j)` of `d` to `f`
      of its old value and the old value of element `(i, j)` of `e`. */
  lemma Apply2Cell<T>(d: MatrixSlices.MatrixSlice, e: MatrixSlices.MatrixSlice, buf: seq<T>, other: seq<T>,
                      f: (T, T) -> T, i: nat, j: nat)
    requires MatrixSlices.Consistent(d) && MatrixSlices.Valid(e)
    requires MatrixSlices.Rows(d) == MatrixSlices.Rows(e) && MatrixSlices.Cols(d) == MatrixSlices.Cols(e)
    requires MatrixSlices.InBuffer(d, |buf|) && MatrixSlices.InBuffer(e, |other|)
    requires i < MatrixSlices.Rows(d) && j < MatrixSlices.Cols(d)
    ensures Within(MatrixSlices.Cells(d), |buf|) && Within(MatrixSlices.Cells(e), |other|)
    ensures MatrixSlices.Offset(d, i, j) < |buf| && MatrixSlices.Offset(e, i, j) < |other|
    ensures ZipCells(buf, other, false, MatrixSlices.Cells(d), MatrixSlices.Cells(e), f)[MatrixSlices.Offset(d, i, j)]
         == f(buf[MatrixSlices.Offset(d, i, j)], other[MatrixSlices.Offset(e, i, j)])
  {
    var k := MatrixSlices.CellIndex(d, e, i, j);
    var dst, src := MatrixSlices.Cells(d), MatrixSlices.Cells(e);
    MatrixSlices.InBufferCells(d, |buf|);
    MatrixSlices.InBufferCells(e, |other|);
    MatrixSlices.CellsDistinct(d);
    ZipCellsAtIndex(buf, other, false, dst, src, f, k);
  }

  /** Equal-shaped views hold equal elements at every `(i, j)`. */
  predicate SameElements<T(==)>(a: MatrixRef<T>, b: MatrixRef<T>)
    reads a.data, b.data
    requires a.Valid() && b.Valid() && a.NRows() == b.NRows() && a.NCols() == b.NCols()
  {
    forall i, j :: 0 <= i < a.NRows() && 0 <= j < a.NCols() ==> a.Get(i, j) == b.Get(i, j)
  }

  /** `operator==`: false on different row or column counts, and otherwise
      true exactly when every pair of elements is equal. */
  method Equal<T(==)>(a: MatrixRef<T>, b: MatrixRef<T>) returns (eq: bool)
    requires a.Valid() && b.Valid()
    ensures eq <==> a.NRows() == b.NRows() && a.NCols() == b.NCols() && SameElements(a, b)
  {
    if a.NRows() != b.NRows() || a.NCols() != b.NCols() {
      return false;
    }
    for i := 0 to a.NRows()
      invariant forall p, q :: 0 <= p < i && 0 <= q < a.NCols() ==> a.Get(p, q) == b.Get(p, q)
    {
      for j := 0 to a.NCols()
        invariant forall p, q :: (0 <= p < i && 0 <= q < a.NCols()) || (p == i && 0 <= q < j) ==>
          a.Get(p, q) == b.Get(p, q)
      {
        if a.Get(i, j) != b.Get(i, j) {
          return false;
        }
      }
    }
    return true;
  }

  /** The rows `operator()(row, slice)` can take from a view: the composed
      unit range is a valid range only for rows up to the view's row
      stride, and holds a row only for row 0. */
  lemma SubRowReach(d: MatrixSlices.MatrixSlice, row: nat, cols: Slice)
    requires MatrixSlices.Valid(d)
    ensures MatrixSlices.CanCompose(d, Unit(row), cols) ==> row <= d.rowSlice.stride
    ensures MatrixSlices.CanCompose(d, Unit(row), cols) ==>
      (MatrixSlices.Rows(MatrixSlices.Compose(d, Unit(row), cols)) == 1 <==> row == 0)
  {
    ComposeUnit(d.rowSlice, row);
  }

  /** The columns `operator()(slice, col)` can take from a view, likewise
      bounded by the view's column stride. */
  lemma SubColReach(d: MatrixSlices.MatrixSlice, rows: Slice, col: nat)
    requires MatrixSlices.Valid(d)
    ensures MatrixSlices.CanCompose(d, rows, Unit(col)) ==> col <= d.colSlice.stride
    ensures MatrixSlices.CanCompose(d, rows, Unit(col)) ==>
      (MatrixSlices.Cols(MatrixSlices.Compose(d, rows, Unit(col))) == 1 <==> col == 0)
  {
    ComposeUnit(d.colSlice, col);
  }

  /** On a view whose rows are taken with stride 1, such as the whole
      matrix, row 1 comes back as an empty view. */
  lemma SubRowOneEmpty(d: MatrixSlices.MatrixSlice, cols: Slice)
    requires MatrixSlices.Valid(d) && d.rowSlice.stride == 1
    requires MatrixSlices.CanCompose(d, Unit(1), cols)
    ensures MatrixSlices.Rows(MatrixSlices.Compose(d, Unit(1), cols)) == 0
  {
    SubRowReach(d, 1, cols);
    ComposeSizeAtMost(d.rowSlice, Unit(1));
  }

  /** On a view whose rows are taken with stride 1, no row from 2 on can
      be taken at all: the composed range would end before it starts. */
  lemma SubRowBeyondOne(d: MatrixSlices.MatrixSlice, row: nat, cols: Slice)
    requires MatrixSlices.Valid(d) && d.rowSlice.stride == 1 && row >= 2
    ensures !MatrixSlices.CanCompose(d, Unit(row), cols)
  {
    SubRowReach(d, row, cols);
  }

  /** Every view equals itself. */
  lemma SameElementsReflexive<T>(a: MatrixRef<T>)
    requires a.Valid()
    ensures SameElements(a, a)
  {
  }
}
