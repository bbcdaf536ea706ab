/** The owning matrix `Matrix<T, Nrows, Ncols>` of the 2-D draft: a
    row-major buffer of `Nrows * Ncols` elements, filled from a nested
    initializer list or copied out of a view, and cut into views that share
    its buffer. */
module Matrices {
  import Arith
  import opened Slices
  import opened Buffers
  import MatrixSlices
  import opened MatrixRefs

  /** The rows of a nested initializer list, concatenated in order. */
  function Flatten<T>(rows: seq<seq<T>>): (r: seq<T>)
    decreases |rows|
  {
    if rows == [] then [] else Flatten(rows[..|rows| - 1]) + rows[|rows| - 1]
  }

  /** An initializer list of `h` rows of `w` elements each. */
  predicate Rectangular<T>(rows: seq<seq<T>>, h: nat, w: nat) {
    |rows| == h && forall r :: 0 <= r < h ==> |rows[r]| == w
  }

  lemma {:induction false} FlattenLength<T>(rows: seq<seq<T>>, w: nat)
    requires Rectangular(rows, |rows|, w)
    ensures |Flatten(rows)| == |rows| * w
    decreases |rows|
  {
    if rows != [] {
      var n := |rows| - 1;
      assert Rectangular(rows[..n], n, w);
      FlattenLength(rows[..n], w);
      Arith.Distrib(n, 1, w);
    }
  }

  /** Element `c` of row `r` lands at position `r * w + c`: the row-major
      layout the copy loop produces. */
  lemma {:induction false} FlattenAt<T>(rows: seq<seq<T>>, w: nat, r: nat, c: nat)
    requires Rectangular(rows, |rows|, w) && r < |rows| && c < w
    ensures r * w + c < |Flatten(rows)| && Flatten(rows)[r * w + c] == rows[r][c]
    decreases |rows|
  {
    var n := |rows| - 1;
    assert Rectangular(rows[..n], n, w);
    FlattenLength(rows[..n], w);
    FlattenLength(rows, w);
    Arith.RowMajorBelow(r, c, |rows|, w);
    if r < n {
      FlattenAt(rows[..n], w, r, c);
      Arith.RowMajorBelow(r, c, n, w);
    }
  }

  /** The descriptor the owner's `operator()(slice, slice)` builds, as
      written: the row stride and the start use the row count `Nrows` as the
      distance between rows, and the element counts come from the requested
      ranges. */
  function OwnerSlice(nrows: nat, ncols: nat, rows: Slice, cols: Slice): (d: MatrixSlices.MatrixSlice)
    requires rows.Valid() && cols.Valid()
    ensures MatrixSlices.Valid(d) && MatrixSlices.Rows(d) == rows.Size() && MatrixSlices.Cols(d) == cols.Size()
  {
    MatrixSlices.MatrixSlice((nrows, ncols), (nrows * rows.stride, cols.stride),
                             rows.start * nrows + cols.start, rows, cols)
  }

  /** The descriptor of `operator()(row, slice)`: one row, `Nrows` apart. */
  function OwnerRowSlice(nrows: nat, ncols: nat, row: nat, cols: Slice): (d: MatrixSlices.MatrixSlice)
    requires cols.Valid()
    ensures MatrixSlices.Valid(d) && MatrixSlices.Rows(d) == 1 && MatrixSlices.Cols(d) == cols.Size()
  {
    MatrixSlices.MatrixSlice((nrows, ncols), (nrows, cols.stride), row * nrows + cols.start, Unit(row), cols)
  }

  /** The descriptor of `operator()(slice, col)`: one column. */
  function OwnerColSlice(nrows: nat, ncols: nat, rows: Slice, col: nat): (d: MatrixSlices.MatrixSlice)
    requires rows.Valid()
    ensures MatrixSlices.Valid(d) && MatrixSlices.Rows(d) == rows.Size() && MatrixSlices.Cols(d) == 1
  {
    MatrixSlices.MatrixSlice((nrows, ncols), (nrows * rows.stride, 1), rows.start * nrows + col, rows, Unit(col))
  }

  /** Element `(i, j)` of the owner's slice resolves to row `rows.Pos(i)`
      and column `cols.Pos(j)` of a layout whose rows are `Nrows` apart. */
  lemma OwnerSliceResolves(nrows: nat, ncols: nat, rows: Slice, cols: Slice, i: nat, j: nat)
    requires rows.Valid() && cols.Valid() && i < rows.Size() && j < cols.Size()
    ensures MatrixSlices.Offset(OwnerSlice(nrows, ncols, rows, cols), i, j) == rows.Pos(i) * nrows + cols.Pos(j)
  {
    Arith.Distrib(rows.start, i * rows.stride, nrows);
    Arith.MulAssoc(i, rows.stride, nrows);
  }

  /** The owner's slice is the descriptor the 2-D constructor would build
      for the same ranges exactly when the matrix is square. */
  lemma OwnerSliceIsMakeIff(nrows: nat, ncols: nat, rows: Slice, cols: Slice)
    requires MatrixSlices.CanMake((nrows, ncols), rows, cols)
    ensures OwnerSlice(nrows, ncols, rows, cols) == MatrixSlices.Make((nrows, ncols), rows, cols) <==> nrows == ncols
  {
    if nrows * rows.stride == rows.stride * ncols {
      Arith.MulCancel(nrows, ncols, rows.stride);
    }
  }

  /** On the 3 by 4 matrix of the slicing tests, element `(1, 0)` of the
      owner's slice `(0..2, 1..3)` resolves to offset 4, which holds 5,
      while the cell of row 1 and column 1 is offset 5, which holds 6. */
  lemma OwnerSliceMisreadsNonSquare(rows: seq<seq<int>>)
    requires rows == [[1, 2, 3, 4], [5, 6, 7, 8], [9, 10, 11, 12]]
    ensures MatrixSlices.Offset(OwnerSlice(3, 4, Slice(0, 2, 1), Slice(1, 3, 1)), 1, 0) == 4
    ensures MatrixSlices.Offset(MatrixSlices.Make((3, 4), Slice(0, 2, 1), Slice(1, 3, 1)), 1, 0) == 5
    ensures |Flatten(rows)| == 12 && Flatten(rows)[4] == 5 && Flatten(rows)[5] == 6
  {
    SizeOfExact(Slice(0, 2, 1), 2);
    SizeOfExact(Slice(1, 3, 1), 2);
    assert Rectangular(rows, 3, 4);
    FlattenLength(rows, 4);
    FlattenAt(rows, 4, 1, 0);
    FlattenAt(rows, 4, 1, 1);
  }

  /** The list of the list-initialisation test fills the 3 by 4 buffer
      with 1 to 12 in order. */
  lemma ListInitScenario(rows: seq<seq<int>>)
    requires rows == [[1, 2, 3, 4], [5, 6, 7, 8], [9, 10, 11, 12]]
    ensures |Flatten(rows)| == 12
    ensures forall k :: 0 <= k < 12 ==> Flatten(rows)[k] == k + 1
  {
    assert Rectangular(rows, 3, 4);
    FlattenLength(rows, 4);
    forall k | 0 <= k < 12 ensures Flatten(rows)[k] == k + 1 {
      Arith.DivBelow(k, 3, 4);
      FlattenAt(rows, 4, k / 4, k % 4);
    }
  }

  /** On a 3 by 2 matrix the owner's slice of all rows and columns has
      row stride 3 and start 0. */
  lemma OwnerSliceOfThreeByTwo()
    ensures OwnerSlice(3, 2, Slice(0, 3, 1), Slice(0, 2, 1))
         == MatrixSlices.MatrixSlice((3, 2), (3, 1), 0, Slice(0, 3, 1), Slice(0, 2, 1))
  {
  }

  /** That slice sends element `(2, 1)` to offset 7, past the six cells of
      the buffer. */
  lemma OwnerSliceEscapesBuffer(d: MatrixSlices.MatrixSlice)
    requires d == MatrixSlices.MatrixSlice((3, 2), (3, 1), 0, Slice(0, 3, 1), Slice(0, 2, 1))
    ensures MatrixSlices.Rows(d) == 3 && MatrixSlices.Cols(d) == 2
    ensures MatrixSlices.Offset(d, 2, 1) == 7
    ensures !MatrixSlices.InBuffer(d, 3 * 2)
  {
    SizeOfExact(Slice(0, 3, 1), 3);
    SizeOfExact(Slice(0, 2, 1), 2);
  }

  /** On a square matrix every element of the owner's slice lies in the buffer. */
  lemma SquareOwnerSliceInBuffer(n: nat, rows: Slice, cols: Slice)
    requires MatrixSlices.CanMake((n, n), rows, cols)
    ensures MatrixSlices.InBuffer(OwnerSlice(n, n, rows, cols), n * n)
  {
    OwnerSliceIsMakeIff(n, n, rows, cols);
    MatrixSlices.CellsInParent(MatrixSlices.Make((n, n), rows, cols));
  }

  class Matrix<T(0)> {
    const nrows: nat
    const ncols: nat
    const elems: array<T>

    /** The buffer holds exactly `Nrows * Ncols` elements. */
    predicate Valid() {
      elems.Length == nrows * ncols
    }

    /** `Matrix() = default`: a buffer of `Nrows * Ncols` elements. */
    constructor (nrows: nat, ncols: nat)
      ensures Valid() && this.nrows == nrows && this.ncols == ncols && fresh(elems)
    {
      this.nrows, this.ncols := nrows, ncols;
      elems := new T[nrows * ncols];
    }

    /** `Matrix(initializer list)`: the rows of the list, in order. */
    constructor FromList(nrows: nat, ncols: nat, list: seq<seq<T>>)
      requires Rectangular(list, nrows, ncols)
      ensures Valid() && this.nrows == nrows && this.ncols == ncols && fresh(elems)
      ensures elems[..] == Flatten(list)
      ensures forall i, j :: 0 <= i < nrows && 0 <= j < ncols ==> Get(i, j) == list[i][j]
    {
      this.nrows, this.ncols := nrows, ncols;
      elems := new T[nrows * ncols];
      new;
      AssignList(list);
    }

    /** `Matrix(MatrixRef)`: a copy of the elements of an equal-shaped view,
        in row-major order. */
    constructor FromView(nrows: nat, ncols: nat, mr: MatrixRef<T>)
      requires mr.Valid() && mr.NRows() == nrows && mr.NCols() == ncols
      ensures Valid() && this.nrows == nrows && this.ncols == ncols && fresh(elems)
      ensures forall i, j :: 0 <= i < nrows && 0 <= j < ncols ==> Get(i, j) == mr.Get(i, j)
    {
      this.nrows, this.ncols := nrows, ncols;
      elems := new T[nrows * ncols];
      new;
      ghost var orig := elems[..];
      AssignView(mr);
      forall i, j | 0 <= i < nrows && 0 <= j < ncols ensures Get(i, j) == mr.Get(i, j) {
        GatherCell(mr.desc, orig, mr.data[..], i, j);
      }
    }

    function Size(): (n: nat)
      requires Valid()
      ensures n == elems.Length
    {
      nrows * ncols
    }

    /** `data()`: the buffer every view of this matrix points into. */
    function Data(): array<T> {
      elems
    }

    /** Element `(i, j)` of the row-major buffer. */
    function Get(i: nat, j: nat): (v: T)
      reads elems
      requires Valid() && i < nrows && j < ncols
      ensures i * ncols + j < elems.Length
    {
      Arith.RowMajorBelow(i, j, nrows, ncols);
      elems[i * ncols + j]
    }

    /** `setFromInitList` (through the list constructor and list
        assignment): the list's elements, row after row, fill the buffer. */
    method AssignList(list: seq<seq<T>>)
      requires Valid() && Rectangular(list, nrows, ncols)
      modifies elems
      ensures elems[..] == Flatten(list)
      ensures forall i, j :: 0 <= i < nrows && 0 <= j < ncols ==> Get(i, j) == list[i][j]
    {
      var i := 0;
      for r := 0 to |list|
        invariant i == r * ncols && i <= elems.Length && elems[..i] == Flatten(list[..r])
      {
        i := AssignListRow(list, r, i);
      }
      assert list[..|list|] == list && elems[..i] == elems[..];
      forall a, b | 0 <= a < nrows && 0 <= b < ncols ensures Get(a, b) == list[a][b] {
        FlattenAt(list, ncols, a, b);
      }
    }

    /** One pass of the outer loop of `setFromInitList`: row `r` of the
        list lands in the cells after those already filled. */
    method AssignListRow(list: seq<seq<T>>, r: nat, start: nat) returns (i: nat)
      requires Valid() && Rectangular(list, nrows, ncols) && r < nrows
      requires start == r * ncols && elems[..start] == Flatten(list[..r])
      modifies elems
      ensures i == (r + 1) * ncols && i <= elems.Length && elems[..i] == Flatten(list[..r + 1])
    {
      Arith.MulLe(r + 1, nrows, ncols);
      Arith.Distrib(r, 1, ncols);
      assert list[..r + 1][..r] == list[..r];
      i := start;
      for c := 0 to |list[r]|
        invariant i == start + c && i <= elems.Length
        invariant elems[..i] == Flatten(list[..r]) + list[r][..c]
      {
        elems[i] := list[r][c];
        assert list[r][..c + 1] == list[r][..c] + [list[r][c]];
        i := i + 1;
      }
      assert list[r][..ncols] == list[r];
    }

    /** `setFromMatrixRef` (through the view constructor and view
        assignment): the view's elements, in row-major order, overwrite the
        buffer from its first cell on; when the view reads this buffer, a
        read sees the copies already made. */
    method AssignView(mr: MatrixRef<T>)
      requires Valid() && mr.Valid() && mr.NRows() == nrows && mr.NCols() == ncols
      modifies elems
      ensures Within(MatrixSlices.Cells(mr.desc), if mr.data == elems then elems.Length else mr.data.Length)
      ensures elems[..] == Gather(old(elems[..]), old(mr.data[..]), mr.data == elems, MatrixSlices.Cells(mr.desc))
    {
      ghost var orig, other := elems[..], mr.data[..];
      var i := 0;
      for r := 0 to mr.NRows()
        invariant i == |MatrixSlices.CellsUpTo(mr.desc, r)| && i <= |orig|
        invariant Within(MatrixSlices.CellsUpTo(mr.desc, r), if mr.data == elems then |orig| else |other|)
        invariant elems[..] == Gather(orig, other, mr.data == elems, MatrixSlices.CellsUpTo(mr.desc, r))
        invariant mr.data != elems ==> mr.data[..] == other
      {
        i := AssignViewRow(mr, r, i, orig, other);
      }
    }

    /** One pass of the outer loop of `setFromMatrixRef`: row `r` of the
        view is copied into the cells after those already filled. */
    method AssignViewRow(mr: MatrixRef<T>, r: nat, start: nat, ghost orig: seq<T>, ghost other: seq<T>)
        returns (i: nat)
      requires Valid() && mr.Valid() && mr.NRows() == nrows && mr.NCols() == ncols && r < nrows
      requires |orig| == elems.Length && start == |MatrixSlices.CellsUpTo(mr.desc, r)|
      requires Within(MatrixSlices.CellsUpTo(mr.desc, r), if mr.data == elems then |orig| else |other|)
      requires elems[..] == Gather(orig, other, mr.data == elems, MatrixSlices.CellsUpTo(mr.desc, r))
      requires mr.data != elems ==> mr.data[..] == other
      modifies elems
      ensures i == |MatrixSlices.CellsUpTo(mr.desc, r + 1)| && i <= |orig|
      ensures Within(MatrixSlices.CellsUpTo(mr.desc, r + 1), if mr.data == elems then |orig| else |other|)
      ensures elems[..] == Gather(orig, other, mr.data == elems, MatrixSlices.CellsUpTo(mr.desc, r + 1))
      ensures mr.data != elems ==> mr.data[..] == other
    {
      ghost var shared := mr.data == elems;
      ghost var row := MatrixSlices.RowCells(mr.desc, r);
      ghost var pre := MatrixSlices.CellsUpTo(mr.desc, r);
      ghost var done := pre;
      Arith.MulLe(r + 1, nrows, ncols);
      Arith.Distrib(r, 1, ncols);
      i := start;
      for c := 0 to ncols
        invariant done == pre + row[..c]
        invariant i == start + c && i == |done| && i <= |orig|
        invariant Within(done, if shared then |orig| else |other|)
        invariant elems[..] == Gather(orig, other, shared, done)
        invariant !shared ==> mr.data[..] == other
      {
        var o := MatrixSlices.Offset(mr.desc, r, c);
        GatherSnoc(orig, other, shared, done, o);
        elems[i] := mr.data[o];
        MatrixSlices.RowCellsSnoc(mr.desc, r, c);
        done := done + [o];
        i := i + 1;
      }
      assert row[..ncols] == row;
    }

    /** The view of every element, in the buffer's own row-major layout. */
    function View(): (mr: MatrixRef<T>)
      requires Valid()
      ensures mr.data == elems && mr.Valid() && mr.NRows() == nrows && mr.NCols() == ncols
      ensures MatrixSlices.Consistent(mr.desc)
      ensures forall i, j :: 0 <= i < nrows && 0 <= j < ncols ==> MatrixSlices.Offset(mr.desc, i, j) == i * ncols + j
    {
      var rows, cols := Slice(0, nrows, 1), Slice(0, ncols, 1);
      SizeOfExact(rows, nrows);
      SizeOfExact(cols, ncols);
      var d := MatrixSlices.Make((nrows, ncols), rows, cols);
      MatrixSlices.CellsInParent(d);
      MatrixRef(elems, d)
    }

    /** `operator()(slice, slice)` of the owner: a view over this buffer,
        with no element copied, built from the descriptor `OwnerSlice`. */
    function Sub(rows: Slice, cols: Slice): (mr: MatrixRef<T>)
      requires rows.Valid() && cols.Valid()
      requires rows.start < nrows && rows.end <= nrows && rows.start < rows.end
      requires cols.start < ncols && cols.end <= ncols && cols.start < cols.end
      ensures mr.data == elems && mr.desc == OwnerSlice(nrows, ncols, rows, cols)
      ensures mr.NRows() == rows.Size() && mr.NCols() == cols.Size()
    {
      MatrixRef(elems, OwnerSlice(nrows, ncols, rows, cols))
    }

    /** `operator()(row, slice)` of the owner. */
    function SubRow(row: nat, cols: Slice): (mr: MatrixRef<T>)
      requires cols.Valid() && row < nrows
      requires cols.start < ncols && cols.end <= ncols && cols.start < cols.end
      ensures mr.data == elems && mr.desc == OwnerRowSlice(nrows, ncols, row, cols)
      ensures mr.NRows() == 1 && mr.NCols() == cols.Size()
    {
      MatrixRef(elems, OwnerRowSlice(nrows, ncols, row, cols))
    }

    /** `operator()(slice, col)` of the owner. */
    function SubCol(rows: Slice, col: nat): (mr: MatrixRef<T>)
      requires rows.Valid() && col < ncols
      requires rows.start < nrows && rows.end <= nrows && rows.start < rows.end
      ensures mr.data == elems && mr.desc == OwnerColSlice(nrows, ncols, rows, col)
      ensures mr.NRows() == rows.Size() && mr.NCols() == 1
    {
      MatrixRef(elems, OwnerColSlice(nrows, ncols, rows, col))
    }
  }

  /** For a view over a separate buffer, cell `i * Cols + j` of the copy
      holds element `(i, j)` of the view. */
  lemma GatherCell<T>(d: MatrixSlices.MatrixSlice, buf: seq<T>, other: seq<T>, i: nat, j: nat)
    requires MatrixSlices.InBuffer(d, |other|) && |MatrixSlices.Cells(d)| <= |buf|
    requires i < MatrixSlices.Rows(d) && j < MatrixSlices.Cols(d)
    ensures Within(MatrixSlices.Cells(d), |other|)
    ensures i * MatrixSlices.Cols(d) + j < |buf| && MatrixSlices.Offset(d, i, j) < |other|
    ensures Gather(buf, other, false, MatrixSlices.Cells(d))[i * MatrixSlices.Cols(d) + j]
         == other[MatrixSlices.Offset(d, i, j)]
  {
    MatrixSlices.InBufferCells(d, |other|);
    MatrixSlices.CellsAt(d, i, j);
    GatherAt(buf, other, false, MatrixSlices.Cells(d), i * MatrixSlices.Cols(d) + j);
  }

  /** `MatrixRef::operator==(Matrix)`: the view compared element by element
      with the whole of the owner. */
  method EqualsMatrix<T(0, ==)>(mr: MatrixRef<T>, m: Matrix<T>) returns (eq: bool)
    requires mr.Valid() && m.Valid()
    ensures eq <==> (mr.NRows() == m.nrows && mr.NCols() == m.ncols &&
                     forall i, j :: 0 <= i < m.nrows && 0 <= j < m.ncols ==> mr.Get(i, j) == m.Get(i, j))
  {
    var v := m.View();
    eq := Equal(mr, v);
    if eq {
      forall i, j | 0 <= i < m.nrows && 0 <= j < m.ncols ensures mr.Get(i, j) == m.Get(i, j) {
        assert mr.Get(i, j) == v.Get(i, j);
      }
    } else if mr.NRows() == m.nrows && mr.NCols() == m.ncols {
      assert !SameElements(mr, v);
    }
  }
}
