/** The N-dimensional descriptor `MatrixSlice<N>` of the vector-backed
    draft: a total size, a start offset, and one extent and one stride per
    dimension. An index tuple resolves to `start + sum of idx[k] * strides[k]`,
    accumulated left to right as `std::inner_product` does. */
module NSlices {
  import Arith

  datatype Option<T> = None | Some(value: T)

  datatype MatrixSlice = MatrixSlice(size: nat, start: nat, extents: seq<nat>, strides: seq<nat>)

  /** The number of elements of a block with the given extents. */
  function Product(exts: seq<nat>): nat {
    if exts == [] then 1 else exts[0] * Product(exts[1..])
  }

  /** The strides of the canonical row-major layout: each dimension steps
      over the product of the extents after it. */
  function CanonicalStrides(exts: seq<nat>): (s: seq<nat>)
    ensures |s| == |exts|
    ensures forall k :: 0 <= k < |exts| ==> s[k] == Product(exts[k + 1..])
  {
    if exts == [] then []
    else
      var rest := CanonicalStrides(exts[1..]);
      [Product(exts[1..])] + rest
  }

  /** The sum of the products of corresponding entries. */
  function Dot(a: seq<nat>, b: seq<nat>): nat
    requires |a| == |b|
  {
    if a == [] then 0 else a[0] * b[0] + Dot(a[1..], b[1..])
  }

  /** `std::inner_product(a, a + N, b, init)`: a left fold adding each
      product to the running total. */
  function InnerProduct(a: seq<nat>, b: seq<nat>, init: nat): (r: nat)
    requires |a| == |b|
    ensures r == init + Dot(a, b)
  {
    if a == [] then init else InnerProduct(a[1..], b[1..], init + a[0] * b[0])
  }

  /** The default constructor: size 1, start 0, every extent 0 and every
      stride 1. */
  function Default(n: nat): (d: MatrixSlice)
    ensures d.size == 1 && d.start == 0 && |d.extents| == n && |d.strides| == n
    ensures forall k :: 0 <= k < n ==> d.extents[k] == 0 && d.strides[k] == 1
  {
    MatrixSlice(1, 0, seq(n, k => 0), seq(n, k => 1))
  }

  /** The constructors from a start and a list of extents (both the by-value
      and the by-reference form): the extents in order, canonical strides,
      and their product as the size. */
  function FromStart(s: nat, exts: seq<nat>): (d: MatrixSlice)
    ensures d.start == s && d.extents == exts && d.size == Product(exts)
    ensures d.strides == CanonicalStrides(exts)
  {
    MatrixSlice(Product(exts), s, exts, CanonicalStrides(exts))
  }

  /** The constructor from the extents alone: start 0. */
  function FromDims(exts: seq<nat>): (d: MatrixSlice)
    ensures d.start == 0 && d.extents == exts && d.size == Product(exts)
    ensures d.strides == CanonicalStrides(exts)
  {
    FromStart(0, exts)
  }

  /** The constructor from a start, extents and strides, as written: the
      extents and strides are copied verbatim and the size derives from the
      extents, but the start argument is never stored, so the start is
      whatever the uninitialised member held (`unset`). */
  function WithStrides(s: nat, exts: seq<nat>, strs: seq<nat>, unset: nat): (d: MatrixSlice)
    ensures d.extents == exts && d.strides == strs && d.size == Product(exts) && d.start == unset
  {
    MatrixSlice(Product(exts), unset, exts, strs)
  }

  /** The start argument of that constructor has no effect on its result. */
  lemma WithStridesIgnoresStart(s1: nat, s2: nat, exts: seq<nat>, strs: seq<nat>, unset: nat)
    ensures WithStrides(s1, exts, strs, unset) == WithStrides(s2, exts, strs, unset)
    ensures s1 != unset ==> WithStrides(s1, exts, strs, unset).start != s1
  {
  }

  /** The index tuples that resolve to an element: one index per dimension,
      each below its extent. */
  predicate InBounds(d: MatrixSlice, idx: seq<nat>) {
    |idx| == |d.extents| && forall k :: 0 <= k < |idx| ==> idx[k] < d.extents[k]
  }

  /** `operator()(dims...)`: exactly one index per stride, folded onto the
      start. */
  function Resolve(d: MatrixSlice, idx: seq<nat>): (r: nat)
    requires |idx| == |d.strides|
    ensures r == d.start + Dot(idx, d.strides)
  {
    InnerProduct(idx, d.strides, d.start)
  }

  lemma {:induction false} DotAdd(a: seq<nat>, b: seq<nat>, k: nat, t: nat)
    requires |a| == |b| && k < |a|
    ensures Dot(a[k := a[k] + t], b) == Dot(a, b) + t * b[k]
    decreases |a|
  {
    if k > 0 {
      assert a[k := a[k] + t][1..] == a[1..][k - 1 := a[1..][k - 1] + t];
      DotAdd(a[1..], b[1..], k - 1, t);
    } else {
      assert a[k := a[k] + t][1..] == a[1..];
    }
  }

  /** Resolution is affine in each index: raising index `k` by `t` moves
      the offset by `t` strides of dimension `k`. */
  lemma ResolveStep(d: MatrixSlice, idx: seq<nat>, k: nat, t: nat)
    requires |idx| == |d.strides| && k < |idx|
    ensures Resolve(d, idx[k := idx[k] + t]) == Resolve(d, idx) + t * d.strides[k]
  {
    DotAdd(idx, d.strides, k, t);
  }

  /** Moving the start moves every offset by the same amount. */
  lemma ResolveShift(d: MatrixSlice, idx: seq<nat>, s: nat)
    requires |idx| == |d.strides|
    ensures Resolve(d.(start := s), idx) + d.start == Resolve(d, idx) + s
  {
  }

  /** The default descriptor of a positive order has no element: every
      extent is 0. */
  lemma DefaultIsEmpty(n: nat, idx: seq<nat>)
    requires n > 0
    ensures !InBounds(Default(n), idx)
  {
    assert |idx| == n ==> !(idx[0] < Default(n).extents[0]);
  }

  lemma {:induction false} DotCanonicalBelow(idx: seq<nat>, exts: seq<nat>)
    requires |idx| == |exts| && forall k :: 0 <= k < |idx| ==> idx[k] < exts[k]
    ensures Dot(idx, CanonicalStrides(exts)) < Product(exts)
    decreases |exts|
  {
    if exts != [] {
      var rest := exts[1..];
      DotCanonicalBelow(idx[1..], rest);
      assert CanonicalStrides(exts)[1..] == CanonicalStrides(rest);
      Arith.RowMajorBelow(idx[0], Dot(idx[1..], CanonicalStrides(rest)), exts[0], Product(rest));
    }
  }

  lemma {:induction false} DotCanonicalInjective(a: seq<nat>, b: seq<nat>, exts: seq<nat>)
    requires |a| == |exts| && forall k :: 0 <= k < |a| ==> a[k] < exts[k]
    requires |b| == |exts| && forall k :: 0 <= k < |b| ==> b[k] < exts[k]
    requires Dot(a, CanonicalStrides(exts)) == Dot(b, CanonicalStrides(exts))
    ensures a == b
    decreases |exts|
  {
    if exts != [] {
      var rest := exts[1..];
      assert CanonicalStrides(exts)[1..] == CanonicalStrides(rest);
      DotCanonicalBelow(a[1..], rest);
      DotCanonicalBelow(b[1..], rest);
      Arith.RowMajorUnique(a[0], Dot(a[1..], CanonicalStrides(rest)),
                           b[0], Dot(b[1..], CanonicalStrides(rest)), Product(rest));
      DotCanonicalInjective(a[1..], b[1..], rest);
      assert a == [a[0]] + a[1..] && b == [b[0]] + b[1..];
    }
  }

  /** In the canonical layout every element resolves inside the `size`
      cells after the start. */
  lemma CanonicalBelowSize(s: nat, exts: seq<nat>, idx: seq<nat>)
    requires InBounds(FromStart(s, exts), idx)
    ensures s <= Resolve(FromStart(s, exts), idx) < s + FromStart(s, exts).size
  {
    DotCanonicalBelow(idx, exts);
  }

  /** In the canonical layout distinct elements resolve to distinct cells. */
  lemma CanonicalInjective(s: nat, exts: seq<nat>, a: seq<nat>, b: seq<nat>)
    requires InBounds(FromStart(s, exts), a) && InBounds(FromStart(s, exts), b)
    ensures Resolve(FromStart(s, exts), a) == Resolve(FromStart(s, exts), b) <==> a == b
  {
    if Resolve(FromStart(s, exts), a) == Resolve(FromStart(s, exts), b) {
      DotCanonicalInjective(a, b, exts);
    }
  }

  /** The mixed-radix digits of `k` under the extents: the index tuple of
      the canonical layout that flattens to `k`. */
  function Digits(k: nat, exts: seq<nat>): (idx: seq<nat>)
    requires k < Product(exts)
    ensures |idx| == |exts| && forall p :: 0 <= p < |idx| ==> idx[p] < exts[p]
    ensures Dot(idx, CanonicalStrides(exts)) == k
    decreases |exts|
  {
    if exts == [] then []
    else
      var w := Product(exts[1..]);
      Arith.DivBelow(k, exts[0], w);
      var rest := Digits(k % w, exts[1..]);
      assert CanonicalStrides(exts)[1..] == CanonicalStrides(exts[1..]);
      [k / w] + rest
  }

  /** The canonical layout covers its range: every cell of the `size` cells
      after the start is the offset of some in-bounds tuple. */
  lemma CanonicalOnto(s: nat, exts: seq<nat>, k: nat)
    requires k < Product(exts)
    ensures exists idx :: InBounds(FromStart(s, exts), idx) && Resolve(FromStart(s, exts), idx) == s + k
  {
    var idx := Digits(k, exts);
    assert InBounds(FromStart(s, exts), idx) && Resolve(FromStart(s, exts), idx) == s + k;
  }

  /** `s` with entry `k` removed. */
  function Remove(s: seq<nat>, k: nat): (r: seq<nat>)
    requires k < |s|
    ensures |r| == |s| - 1
    ensures forall p :: 0 <= p < |r| ==> r[p] == if p < k then s[p] else s[p + 1]
  {
    s[..k] + s[k + 1..]
  }

  /** `s` with `x` inserted before entry `k`. */
  function Insert(s: seq<nat>, k: nat, x: nat): (r: seq<nat>)
    requires k <= |s|
    ensures |r| == |s| + 1 && r[k] == x
    ensures forall p :: 0 <= p < |s| ==> r[if p < k then p else p + 1] == s[p]
  {
    s[..k] + [x] + s[k..]
  }

  /** Fixing index `n` of dimension `dim` (what the row and column accessors
      ask of `slice_dim`, defined in `matrix_impl`, which is not modelled):
      that dimension is dropped and the start advances by `n` of its
      strides. */
  function SliceDim(dim: nat, n: nat, d: MatrixSlice): (r: MatrixSlice)
    requires dim < |d.extents| && |d.extents| == |d.strides|
    ensures |r.extents| == |r.strides| == |d.extents| - 1
    ensures r.start == d.start + n * d.strides[dim] && r.size == Product(r.extents)
  {
    var e := Remove(d.extents, dim);
    MatrixSlice(Product(e), d.start + n * d.strides[dim], e, Remove(d.strides, dim))
  }

  lemma {:induction false} DotAppend(a1: seq<nat>, a2: seq<nat>, b1: seq<nat>, b2: seq<nat>)
    requires |a1| == |b1| && |a2| == |b2|
    ensures Dot(a1 + a2, b1 + b2) == Dot(a1, b1) + Dot(a2, b2)
    decreases |a1|
  {
    if a1 != [] {
      assert (a1 + a2)[1..] == a1[1..] + a2 && (b1 + b2)[1..] == b1[1..] + b2;
      DotAppend(a1[1..], a2, b1[1..], b2);
    } else {
      assert a1 + a2 == a2 && b1 + b2 == b2;
    }
  }

  /** An element of the sliced descriptor is the element of the parent
      with `n` put back at dimension `dim`. */
  lemma SliceDimResolves(dim: nat, n: nat, d: MatrixSlice, idx: seq<nat>)
    requires dim < |d.extents| && |d.extents| == |d.strides| && |idx| == |d.strides| - 1
    ensures Resolve(SliceDim(dim, n, d), idx) == Resolve(d, Insert(idx, dim, n))
  {
    var st := d.strides;
    var lo, hi := idx[..dim], idx[dim..];
    var slo, shi := st[..dim], st[dim + 1..];
    assert st == slo + ([st[dim]] + shi);
    assert idx == lo + hi;
    assert Insert(idx, dim, n) == lo + ([n] + hi);
    assert Remove(st, dim) == slo + shi;
    DotAppend(lo, [n] + hi, slo, [st[dim]] + shi);
    DotAppend([n], hi, [st[dim]], shi);
    DotAppend(lo, hi, slo, shi);
  }

  /** An in-bounds element of the sliced descriptor, with an `n` below the
      removed extent put back, is in the parent's bounds. */
  lemma SliceDimInBounds(dim: nat, n: nat, d: MatrixSlice, idx: seq<nat>)
    requires dim < |d.extents| && |d.extents| == |d.strides| && n < d.extents[dim]
    requires InBounds(SliceDim(dim, n, d), idx)
    ensures InBounds(d, Insert(idx, dim, n))
  {
    var ins := Insert(idx, dim, n);
    forall k | 0 <= k < |ins| ensures ins[k] < d.extents[k] {
      if k < dim {
        assert ins[k] == idx[k];
      } else if k > dim {
        assert ins[k] == idx[k - 1];
      }
    }
  }

  /** What `do_slice_dim` is taken to do to dimension `dim` of the new
      descriptor `ns`, for the `{start, length}` ranges the row and column
      ranges pass it (a missing length meaning "to the end"): the extent
      becomes the selected length, the stride is the parent's, and the
      returned offset is `start` parent strides. */
  function DoSliceDim(os: MatrixSlice, ns: MatrixSlice, dim: nat, start: nat, length: Option<nat>): (r: (MatrixSlice, nat))
    requires dim < |os.extents| == |os.strides| == |ns.extents| == |ns.strides|
    requires length == None ==> start <= os.extents[dim]
    ensures r.0 == ns.(extents := r.0.extents, strides := r.0.strides)
    ensures r.0.extents == ns.extents[dim := if length.Some? then length.value else os.extents[dim] - start]
    ensures r.0.strides == ns.strides[dim := os.strides[dim]]
    ensures r.1 == start * os.strides[dim]
  {
    var e := if length.Some? then length.value else os.extents[dim] - start;
    (ns.(extents := ns.extents[dim := e], strides := ns.strides[dim := os.strides[dim]]), start * os.strides[dim])
  }

  /** The descriptor `rows(i, j)` builds: dimension 0 cut to the `j - i + 1`
      rows from row `i`, every other dimension and every stride kept, and
      the size left at the default 1. */
  function RowsDesc(d: MatrixSlice, i: nat, j: nat): (r: MatrixSlice)
    requires |d.extents| == |d.strides| >= 1 && i <= j
    ensures |r.extents| == |r.strides| == |d.extents|
  {
    MatrixSlice(1, d.start + i * d.strides[0], d.extents[0 := j - i + 1], d.strides)
  }

  /** The descriptor `cols(i, j)` builds: dimension 1 cut to the `j - i + 1`
      columns from column `i`. */
  function ColsDesc(d: MatrixSlice, i: nat, j: nat): (r: MatrixSlice)
    requires |d.extents| == |d.strides| >= 2 && i <= j
    ensures |r.extents| == |r.strides| == |d.extents|
  {
    MatrixSlice(1, d.start + i * d.strides[1], d.extents[1 := j - i + 1], d.strides)
  }

  /** Element `idx` of `rows(i, j)` is element `idx` of the parent with its
      row index moved down by `i`, and lies in the parent's bounds. */
  lemma RowsDescResolves(d: MatrixSlice, i: nat, j: nat, idx: seq<nat>)
    requires |d.extents| == |d.strides| >= 1 && i <= j < d.extents[0]
    requires InBounds(RowsDesc(d, i, j), idx)
    ensures Resolve(RowsDesc(d, i, j), idx) == Resolve(d, idx[0 := idx[0] + i])
    ensures InBounds(d, idx[0 := idx[0] + i])
  {
    DotAdd(idx, d.strides, 0, i);
  }

  /** Element `idx` of `cols(i, j)` is element `idx` of the parent with its
      column index moved right by `i`, and lies in the parent's bounds. */
  lemma ColsDescResolves(d: MatrixSlice, i: nat, j: nat, idx: seq<nat>)
    requires |d.extents| == |d.strides| >= 2 && i <= j < d.extents[1]
    requires InBounds(ColsDesc(d, i, j), idx)
    ensures Resolve(ColsDesc(d, i, j), idx) == Resolve(d, idx[1 := idx[1] + i])
    ensures InBounds(d, idx[1 := idx[1] + i])
  {
    DotAdd(idx, d.strides, 1, i);
  }
}
