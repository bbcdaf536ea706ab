/** The views the slicing test of the 2-D draft builds on its 3x4 matrix,
    worked out under the model: the owner's `operator()(slice, slice)`
    (`Matrices.OwnerSlice`, rows `Nrows` apart), the view's own slicing
    (`MatrixSlices.Compose`), and element access through the view. */
module SliceTests {
  import opened Slices
  import opened MatrixSlices
  import Matrices

  /** Element `(i, j)` of a view over the buffer `buf` exists and holds `v`.
      The scenarios below take `buf` to be the flattened initializer list
      of the test, the buffer the list constructor leaves. */
  predicate HoldsAt(buf: seq<int>, d: MatrixSlice, i: nat, j: nat, v: int) {
    Valid(d) && i < Rows(d) && j < Cols(d) && Offset(d, i, j) < |buf| && buf[Offset(d, i, j)] == v
  }

  /** The initializer list of the test's 3 by 4 matrix. */
  function TestList(): seq<seq<int>> {
    [[1, 2, 3, 4], [5, 6, 7, 8], [9, 10, 11, 12]]
  }

  /** `s = m(slice(0, 2), slice(1, 3))`: the owner's slice starts at offset
      1 with rows 3 apart, the row count, not the column count 4. */
  lemma SliceScenario()
    ensures Matrices.OwnerSlice(3, 4, Slice(0, 2, 1), Slice(1, 3, 1))
         == MatrixSlice((3, 4), (3, 1), 1, Slice(0, 2, 1), Slice(1, 3, 1))
  {
  }

  /** That view is 2 by 2, and over the test's buffer its elements hold
      2, 3, 5 and 6: the first row as the test expects, the second row one
      cell short of the 6 and 7 it expects. */
  lemma SliceScenarioCells(d: MatrixSlice, buf: seq<int>, rows: seq<seq<int>>)
    requires d == MatrixSlice((3, 4), (3, 1), 1, Slice(0, 2, 1), Slice(1, 3, 1))
    requires rows == TestList() && buf == Matrices.Flatten(rows)
    ensures Rows(d) == 2 && Cols(d) == 2
    ensures HoldsAt(buf, d, 0, 0, 2) && HoldsAt(buf, d, 0, 1, 3)
    ensures HoldsAt(buf, d, 1, 0, 5) && HoldsAt(buf, d, 1, 1, 6)
  {
    Matrices.ListInitScenario(rows);
    assert buf[1] == 2 && buf[2] == 3 && buf[4] == 5 && buf[5] == 6;
  }

  /** The row half of the slice of that view below. */
  lemma SliceOfSliceRows()
    ensures Slices.Compose(Slice(0, 2, 1), Slice(0, 1, 1)) == Slice(0, 1, 1)
  {
    SizeOfExact(Slice(0, 1, 1), 1);
  }

  /** The column half of the slice of that view below. */
  lemma SliceOfSliceCols()
    ensures Slices.Compose(Slice(1, 3, 1), Slice(0, 2, 1)) == Slice(1, 3, 1)
  {
    SizeOfExact(Slice(0, 2, 1), 2);
  }

  /** `s2 = s(slice(0, 1), slice(0, 2))`: the composition keeps the start 1
      and the selected ranges, but rebuilds the row distance from the
      extents, so the rows of `s2` are 4 apart where those of `s` are 3. */
  lemma SliceOfSliceScenario(s: MatrixSlice)
    requires s == MatrixSlice((3, 4), (3, 1), 1, Slice(0, 2, 1), Slice(1, 3, 1))
    ensures CanCompose(s, Slice(0, 1, 1), Slice(0, 2, 1))
    ensures MatrixSlices.Compose(s, Slice(0, 1, 1), Slice(0, 2, 1))
         == MatrixSlice((3, 4), (4, 1), 1, Slice(0, 1, 1), Slice(1, 3, 1))
  {
    SliceOfSliceRows();
    SliceOfSliceCols();
  }

  /** The slice of the slice is 1 by 2, and over the test's buffer its
      elements hold 2 and 3, as the test expects: with one row the row
      distance plays no part. */
  lemma SliceOfSliceScenarioCells(s2: MatrixSlice, buf: seq<int>, rows: seq<seq<int>>)
    requires s2 == MatrixSlice((3, 4), (4, 1), 1, Slice(0, 1, 1), Slice(1, 3, 1))
    requires rows == TestList() && buf == Matrices.Flatten(rows)
    ensures Rows(s2) == 1 && Cols(s2) == 2
    ensures HoldsAt(buf, s2, 0, 0, 2) && HoldsAt(buf, s2, 0, 1, 3)
  {
    Matrices.ListInitScenario(rows);
    assert buf[1] == 2 && buf[2] == 3;
  }

  /** `s3 = m(slice(0, 3, 2), slice(0, 4, 2))`: rows 6 apart (twice the
      row count 3) and columns 2 apart, from offset 0. */
  lemma StridedScenario()
    ensures Matrices.OwnerSlice(3, 4, Slice(0, 3, 2), Slice(0, 4, 2))
         == MatrixSlice((3, 4), (6, 2), 0, Slice(0, 3, 2), Slice(0, 4, 2))
  {
  }

  /** The strided view has one row where the test expects two, so it
      cannot equal the test's 2 by 2 matrix; over the test's buffer its one
      row holds 1 and 3, the first row of that matrix. */
  lemma StridedScenarioCells(buf: seq<int>, rows: seq<seq<int>>)
    requires rows == TestList() && buf == Matrices.Flatten(rows)
    ensures Rows(MatrixSlice((3, 4), (6, 2), 0, Slice(0, 3, 2), Slice(0, 4, 2))) == 1
    ensures Cols(MatrixSlice((3, 4), (6, 2), 0, Slice(0, 3, 2), Slice(0, 4, 2))) == 2
    ensures HoldsAt(buf, MatrixSlice((3, 4), (6, 2), 0, Slice(0, 3, 2), Slice(0, 4, 2)), 0, 0, 1)
    ensures HoldsAt(buf, MatrixSlice((3, 4), (6, 2), 0, Slice(0, 3, 2), Slice(0, 4, 2)), 0, 1, 3)
  {
    Matrices.ListInitScenario(rows);
    StridedTestRange();
    SizeOfExact(Slice(0, 4, 2), 2);
    assert buf[0] == 1 && buf[2] == 3;
  }

}
