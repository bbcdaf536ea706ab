/** The vector-backed owner `Matrix<T, N>` of the N-dimensional draft, with
    the element access and queries of its base `MatrixBase<T, N>`, and the
    single-element `Matrix<T, 0>`. An assignment gives the model's matrix a
    fresh buffer with the new contents; the vector's reuse of its storage,
    and what views taken before the assignment then see, are not modelled. */
module NMatrices {
  import opened NSlices

  /** A view handed out by the slicing accessors: a descriptor over the
      owner's buffer. */
  datatype MatrixRef<T> = MatrixRef(desc: MatrixSlice, data: array<T>)

  /** The descriptor a copy assigned from a view keeps: the view's own, with
      the start reset to 0. */
  function AssignedFromView(d: MatrixSlice): (r: MatrixSlice)
    ensures r.start == 0 && r.extents == d.extents && r.strides == d.strides && r.size == d.size
  {
    d.(start := 0)
  }

  /** A copy assigned from the columns view `cols(0, 0)` of a 3 by 3 matrix
      keeps the view's strides `(3, 1)` over a buffer of the 3 copied
      elements, so element `(2, 0)` resolves to offset 6, past them; its
      size also stays the 1 that `cols` left. */
  lemma AssignedFromViewEscapes(d: MatrixSlice)
    requires d == AssignedFromView(ColsDesc(FromDims([3, 3]), 0, 0))
    ensures Product(d.extents) == 3 && d.size == 1
    ensures InBounds(d, [2, 0]) && Resolve(d, [2, 0]) == 6
  {
    assert d.extents == [3, 1] && d.strides == [3, 1];
    assert Product([1]) == 1;
  }

  /** Offsets of a descriptor built from extents alone stay below its size. */
  lemma FromDimsInBuffer(exts: seq<nat>, idx: seq<nat>)
    requires InBounds(FromDims(exts), idx)
    ensures Resolve(FromDims(exts), idx) < Product(exts)
  {
    CanonicalBelowSize(0, exts, idx);
  }

  class Matrix<T(0)> {
    const order: nat
    var desc: MatrixSlice
    var elems: array<T>

    /** `N` extents and strides, and one element per cell of the extents. */
    predicate Valid()
      reads this
    {
      order >= 1 && |desc.extents| == order && |desc.strides| == order && elems.Length == Product(desc.extents)
    }

    /** `Matrix() = default`: the default descriptor and no elements. */
    constructor (order: nat)
      requires order >= 1
      ensures Valid() && this.order == order && desc == Default(order) && elems.Length == 0 && fresh(elems)
    {
      this.order := order;
      desc := Default(order);
      elems := new T[0];
      new;
      assert desc.extents[0] == 0;
    }

    /** `Matrix(exts...)`: canonical descriptor from the extents, and room
        for exactly `size` elements. */
    constructor FromExtents(exts: seq<nat>)
      requires |exts| >= 1
      ensures Valid() && order == |exts| && desc == FromDims(exts) && fresh(elems)
      ensures elems.Length == desc.size
    {
      order := |exts|;
      desc := FromDims(exts);
      elems := new T[Product(exts)];
    }

    /** `Matrix(initializer list)`: the list's extents, start 0, canonical
        strides, and its elements in row-major order. */
    constructor FromList(exts: seq<nat>, flat: seq<T>)
      requires |exts| >= 1 && |flat| == Product(exts)
      ensures Valid() && order == |exts| && desc == FromDims(exts) && fresh(elems)
      ensures desc.start == 0 && elems.Length == desc.size && elems[..] == flat
    {
      order := |exts|;
      desc := Default(|exts|);
      elems := new T[0];
      new;
      AssignList(exts, flat);
    }

    /** `operator=(initializer list)`: the old elements are dropped and the
        matrix takes the list's shape and elements. */
    method AssignList(exts: seq<nat>, flat: seq<T>)
      requires |exts| == order >= 1 && |flat| == Product(exts)
      modifies this
      ensures Valid() && desc == FromDims(exts) && fresh(elems)
      ensures desc.start == 0 && elems.Length == desc.size && elems[..] == flat
    {
      desc := FromDims(exts);
      elems := new T[|flat|](k requires 0 <= k < |flat| => flat[k]);
    }

    /** `Matrix(const M&)`: the other matrix's descriptor and a copy of its
        elements. */
    constructor FromMatrix(x: Matrix<T>)
      requires x.Valid()
      ensures Valid() && order == x.order && desc == x.desc && fresh(elems) && elems[..] == x.elems[..]
    {
      order := x.order;
      desc := x.desc;
      var xs := x.elems;
      elems := new T[xs.Length](k requires 0 <= k < xs.Length reads xs => xs[k]);
    }

    /** `operator=(const M&)`: the other matrix's descriptor and a copy of
        its elements, also when it is this matrix. */
    method AssignMatrix(x: Matrix<T>)
      requires Valid() && x.Valid() && x.order == order
      modifies this
      ensures Valid() && desc == old(x.desc) && fresh(elems) && elems[..] == old(x.elems[..])
    {
      var xs := x.elems;
      var copy := new T[xs.Length](k requires 0 <= k < xs.Length reads xs => xs[k]);
      desc := x.desc;
      elems := copy;
    }

    /** `Matrix(const MatrixRef&)`, taken as intended: the canonical layout
        of the view's extents, filled with the view's elements in the order
        the view's iterators yield them (`contents`). */
    constructor FromView(x: MatrixRef<T>, contents: seq<T>)
      requires |x.desc.extents| == |x.desc.strides| >= 1 && |contents| == Product(x.desc.extents)
      ensures Valid() && order == |x.desc.extents| && desc == FromDims(x.desc.extents)
      ensures fresh(elems) && elems[..] == contents
    {
      order := |x.desc.extents|;
      desc := FromDims(x.desc.extents);
      elems := new T[|contents|](k requires 0 <= k < |contents| => contents[k]);
    }

    /** `operator=(const MatrixRef&)`: the view's descriptor with start 0,
        filled with the view's elements (`contents`). */
    method AssignView(x: MatrixRef<T>, contents: seq<T>)
      requires |x.desc.extents| == |x.desc.strides| == order >= 1 && |contents| == Product(x.desc.extents)
      modifies this
      ensures Valid() && desc == AssignedFromView(x.desc) && fresh(elems) && elems[..] == contents
    {
      desc := AssignedFromView(x.desc);
      elems := new T[|contents|](k requires 0 <= k < |contents| => contents[k]);
    }

    /** `size()`: the number of stored elements. */
    function Size(): (n: nat)
      reads this
      requires Valid()
      ensures n == Product(desc.extents)
    {
      elems.Length
    }

    /** `order()`. */
    function Order(): nat {
      order
    }

    /** `extent(n)`: the extent of dimension `n < N`. */
    function Extent(n: nat): nat
      reads this
      requires Valid() && n < order
    {
      desc.extents[n]
    }

    /** `descriptor()`: the descriptor as stored. */
    function Descriptor(): MatrixSlice
      reads this
    {
      desc
    }

    /** `data()`: the buffer every view of this matrix points into. */
    function Data(): array<T>
      reads this
    {
      elems
    }

    /** `n_rows()`: the extent of dimension 0. */
    function NRows(): nat
      reads this
      requires Valid()
    {
      desc.extents[0]
    }

    /** `n_cols()`: the extent of dimension 1, which exists from order 2. */
    function NCols(): nat
      reads this
      requires Valid() && order >= 2
    {
      desc.extents[1]
    }

    /** Element access `operator()(args...)` read: the bounds check, and the
        cell the descriptor resolves the index tuple to. */
    function Get(idx: seq<nat>): (v: T)
      reads this, elems
      requires Valid() && InBounds(desc, idx) && Resolve(desc, idx) < elems.Length
    {
      elems[Resolve(desc, idx)]
    }

    /** Element access `operator()(args...)` write: only the resolved cell
        changes, and it reads back as the value written. */
    method Set(idx: seq<nat>, v: T)
      requires Valid() && InBounds(desc, idx) && Resolve(desc, idx) < elems.Length
      modifies elems
      ensures elems[..] == old(elems[..])[Resolve(desc, idx) := v] && Get(idx) == v
    {
      elems[Resolve(desc, idx)] := v;
    }

    /** `apply(f)`: every stored element, in storage order, replaced by `f`
        of itself. */
    method Apply(f: T -> T)
      requires Valid()
      modifies elems
      ensures forall k :: 0 <= k < elems.Length ==> elems[k] == f(old(elems[k]))
    {
      for k := 0 to elems.Length
        invariant forall p :: 0 <= p < k ==> elems[p] == f(old(elems[p]))
        invariant forall p :: k <= p < elems.Length ==> elems[p] == old(elems[p])
      {
        elems[k] := f(elems[k]);
      }
    }

    /** `apply(m, f)`: with equal extents, the k-th element becomes `f` of
        itself and the k-th element of `m`, also when `m` is this matrix. */
    method Apply2(m: Matrix<T>, f: (T, T) -> T)
      requires Valid() && m.Valid() && m.desc.extents == desc.extents
      modifies elems
      ensures forall k :: 0 <= k < elems.Length ==> elems[k] == f(old(elems[k]), old(m.elems[k]))
    {
      for k := 0 to elems.Length
        invariant forall p :: 0 <= p < k ==> elems[p] == f(old(elems[p]), old(m.elems[p]))
        invariant forall p :: k <= p < elems.Length ==> elems[p] == old(elems[p])
        invariant forall p :: k <= p < m.elems.Length ==> m.elems[p] == old(m.elems[p])
      {
        elems[k] := f(elems[k], m.elems[k]);
      }
    }

    /** `row(n)`, and `operator[](n)`: a view of row `n < n_rows()` over
        this buffer, one order lower. */
    function Row(n: nat): (r: MatrixRef<T>)
      reads this
      requires Valid() && n < NRows()
      ensures r.data == elems && r.desc == SliceDim(0, n, desc)
      ensures |r.desc.extents| == order - 1
    {
      MatrixRef(SliceDim(0, n, desc), elems)
    }

    /** `col(n)`: a view of column `n < n_cols()` over this buffer. */
    function Col(n: nat): (r: MatrixRef<T>)
      reads this
      requires Valid() && order >= 2 && n < NCols()
      ensures r.data == elems && r.desc == SliceDim(1, n, desc)
      ensures |r.desc.extents| == order - 1
    {
      MatrixRef(SliceDim(1, n, desc), elems)
    }

    /** `rows(i, j)`: rows `i` to `j` of this buffer; dimension 0 is cut by
        `do_slice_dim` and the loop passes every remaining dimension whole. */
    method Rows(i: nat, j: nat) returns (r: MatrixRef<T>)
      requires Valid() && i <= j < NRows()
      ensures r.data == elems && r.desc == RowsDesc(desc, i, j)
    {
      var d := Default(order);
      d := d.(start := desc.start);
      var cut := DoSliceDim(desc, d, 0, i, Some(j - i + 1));
      d := cut.0.(start := cut.0.start + cut.1);
      var rest := order - 1;
      while rest >= 1
        invariant 0 <= rest <= order - 1 && |d.extents| == |d.strides| == order
        invariant d.size == 1 && d.start == desc.start + i * desc.strides[0]
        invariant d.extents[0] == j - i + 1 && d.strides[0] == desc.strides[0]
        invariant forall k :: 1 <= k < order - rest ==> d.extents[k] == desc.extents[k] && d.strides[k] == desc.strides[k]
        decreases rest
      {
        cut := DoSliceDim(desc, d, order - rest, 0, None);
        d := cut.0.(start := cut.0.start + cut.1);
        rest := rest - 1;
      }
      assert d.extents == desc.extents[0 := j - i + 1] && d.strides == desc.strides;
      r := MatrixRef(d, elems);
    }

    /** `cols(i, j)`: columns `i` to `j` of this buffer; dimension 0 is
        passed whole, dimension 1 is cut, and the loop passes the rest. */
    method Cols(i: nat, j: nat) returns (r: MatrixRef<T>)
      requires Valid() && order >= 2 && i <= j < NCols()
      ensures r.data == elems && r.desc == ColsDesc(desc, i, j)
    {
      var d := Default(order);
      d := d.(start := desc.start);
      var cut := DoSliceDim(desc, d, 0, 0, None);
      d := cut.0.(start := cut.0.start + cut.1);
      cut := DoSliceDim(desc, d, 1, i, Some(j - i + 1));
      d := cut.0.(start := cut.0.start + cut.1);
      var rest := order - 2;
      while rest >= 1
        invariant 0 <= rest <= order - 2 && |d.extents| == |d.strides| == order
        invariant d.size == 1 && d.start == desc.start + i * desc.strides[1]
        invariant d.extents[0] == desc.extents[0] && d.strides[0] == desc.strides[0]
        invariant d.extents[1] == j - i + 1 && d.strides[1] == desc.strides[1]
        invariant forall k :: 2 <= k < order - rest ==> d.extents[k] == desc.extents[k] && d.strides[k] == desc.strides[k]
        decreases rest
      {
        cut := DoSliceDim(desc, d, order - rest, 0, None);
        d := cut.0.(start := cut.0.start + cut.1);
        rest := rest - 1;
      }
      assert d.extents == desc.extents[1 := j - i + 1] && d.strides == desc.strides;
      r := MatrixRef(d, elems);
    }
  }

  /** The specialisation `Matrix<T, 0>`: exactly one element. */
  class Scalar<T> {
    const elem: array<T>

    predicate Valid() {
      elem.Length == 1
    }

    /** `Matrix(const T& x)`: the single element is `x`. */
    constructor (x: T)
      ensures Valid() && elem[0] == x && fresh(elem)
    {
      elem := new T[1](k => x);
    }

    /** `operator=(const T&)`: the single element becomes `value`. */
    method Assign(value: T)
      requires Valid()
      modifies elem
      ensures Valid() && elem[0] == value && Get() == value
    {
      elem[0] := value;
    }

    /** `size()`: one element. */
    function Size(): (n: nat)
      requires Valid()
      ensures n == elem.Length
    {
      1
    }

    /** `operator()()` and the conversion to `T`: the single element. */
    function Get(): T
      reads elem
      requires Valid()
    {
      elem[0]
    }
  }
}
