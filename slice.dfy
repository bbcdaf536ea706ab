/** The per-dimension range `slice` of the 2-D draft: the positions
    `start, start + stride, ...` taken along one dimension, sized by the
    code's floor division `(end - start) / stride`. */
module Slices {
  import Arith

  datatype Slice = Slice(start: nat, end: nat, stride: nat) {

    /** The ranges whose size the code computes without dividing by zero
        or wrapping the unsigned difference `end - start`. */
    predicate Valid() {
      stride >= 1 && start <= end
    }

    /** The k-th selected position. */
    function Pos(k: nat): nat {
      start + k * stride
    }

    /** `size()`: floor division of the range length by the stride. */
    function Size(): (n: nat)
      requires Valid()
      ensures n <= end - start
      ensures stride == 1 ==> n == end - start
    {
      var len := end - start;
      assert len == (len / stride) * stride + len % stride;
      Arith.MulLe(1, stride, len / stride);
      len / stride
    }
  }

  /** The single-position range `{k, k + 1}` that the row and column forms
      of slicing build, with a stride of 1. */
  function Unit(k: nat): (s: Slice)
    ensures s.Valid() && s.Size() == 1 && s.Pos(0) == k
  {
    var s := Slice(k, k + 1, 1);
    SizeOfExact(s, 1);
    s
  }

  /** The size is the largest count whose positions fit in the range: the
      floor of the range length over the stride. */
  lemma SizeIsFloor(s: Slice)
    requires s.Valid()
    ensures s.Size() * s.stride <= s.end - s.start < (s.Size() + 1) * s.stride
    ensures s.start == s.end ==> s.Size() == 0
  {
    var len := s.end - s.start;
    assert len == (len / s.stride) * s.stride + len % s.stride;
  }

  /** A range whose length is `n` strides holds `n` positions. */
  lemma SizeOfExact(s: Slice, n: nat)
    requires s.Valid() && s.end - s.start == n * s.stride
    ensures s.Size() == n
  {
    Arith.DivModOf(n, 0, s.stride);
  }

  /** Every selected position lies strictly below `end`. */
  lemma PosBelowEnd(s: Slice, k: nat)
    requires s.Valid() && k < s.Size()
    ensures s.Pos(k) < s.end
  {
    SizeIsFloor(s);
    Arith.MulLe(k + 1, s.Size(), s.stride);
    Arith.Distrib(k, 1, s.stride);
  }

  /** The next position after the last selected one is still below `end`
      exactly when the stride does not divide the range length: the floor
      sizing then leaves that position out. */
  lemma NextPosBelowEndIff(s: Slice)
    requires s.Valid()
    ensures s.Pos(s.Size()) < s.end <==> (s.end - s.start) % s.stride != 0
  {
    var len := s.end - s.start;
    assert len == (len / s.stride) * s.stride + len % s.stride;
  }

  /** Ceiling sizing of a strided range, which the strided test expects:
      the number of positions `start + k * stride` below `end`. */
  function CeilSize(s: Slice): (n: nat)
    requires s.Valid()
  {
    (s.end - s.start + s.stride - 1) / s.stride
  }

  /** The ceiling size counts exactly the positions below `end`. */
  lemma CeilSizeSelects(s: Slice, k: nat)
    requires s.Valid()
    ensures k < CeilSize(s) <==> s.Pos(k) < s.end
  {
    var len := s.end - s.start;
    var t := len + s.stride - 1;
    var n := t / s.stride;
    assert t == n * s.stride + t % s.stride;
    if k < n {
      Arith.MulLe(k + 1, n, s.stride);
    } else {
      Arith.MulLe(n, k, s.stride);
    }
  }

  /** Floor and ceiling sizing agree exactly when the stride divides the
      range length; otherwise the code's size is one short. */
  lemma SizeVersusCeilSize(s: Slice)
    requires s.Valid()
    ensures (s.end - s.start) % s.stride == 0 ==> s.Size() == CeilSize(s)
    ensures (s.end - s.start) % s.stride != 0 ==> s.Size() + 1 == CeilSize(s)
  {
    var n := s.Size();
    NextPosBelowEndIff(s);
    CeilSizeSelects(s, n);
    if n > 0 {
      PosBelowEnd(s, n - 1);
      CeilSizeSelects(s, n - 1);
    }
    if (s.end - s.start) % s.stride == 0 {
      CeilSizeSelects(s, n);
    } else {
      CeilSizeSelects(s, n + 1);
      assert s.Pos(n + 1) >= s.end by {
        assert s.Pos(n + 1) == s.start + (n + 1) * s.stride;
      }
    }
  }

  /** The strided range of the tests, `slice(0, 3, 2)`: the code sizes it
      as one position, though positions 0 and 2 both lie below 3. */
  lemma StridedTestRange()
    ensures Slice(0, 3, 2).Size() == 1
    ensures CeilSize(Slice(0, 3, 2)) == 2
    ensures Slice(0, 3, 2).Pos(1) == 2 < 3
  {
  }

  /** The range a slice of a slice selects (the row and column halves of
      the 2-D composition): the strides multiply, the requested start is
      added to the parent's start without scaling, and the end is set
      `size * stride` past the parent's start. */
  function Compose(p: Slice, r: Slice): (c: Slice)
    requires r.Valid()
    ensures c.stride == p.stride * r.stride
  {
    var st := p.stride * r.stride;
    Slice(p.start + r.start, p.start + r.Size() * st, st)
  }

  /** The k-th position of the composed range never exceeds the parent
      position of the requested one, and equals it exactly when the parent
      stride is 1 or the requested start is 0. */
  lemma ComposePos(p: Slice, r: Slice, k: nat)
    requires p.stride >= 1 && r.Valid()
    ensures Compose(p, r).Pos(k) <= p.Pos(r.Pos(k))
    ensures Compose(p, r).Pos(k) == p.Pos(r.Pos(k)) <==> (p.stride == 1 || r.start == 0)
  {
    var c := Compose(p, r);
    calc {
      p.Pos(r.Pos(k));
      p.start + (r.start + k * r.stride) * p.stride;
      p.start + r.start * p.stride + k * (p.stride * r.stride);
      c.Pos(k) + r.start * (p.stride - 1);
    }
    if r.start != 0 && p.stride != 1 {
      Arith.MulLe(1, r.start, p.stride - 1);
    }
  }

  /** With requested start 0 the composed range is valid and keeps the
      requested size. */
  lemma ComposeFromZero(p: Slice, r: Slice)
    requires p.stride >= 1 && r.Valid() && r.start == 0
    ensures Compose(p, r).Valid() && Compose(p, r).Size() == r.Size()
  {
    var c := Compose(p, r);
    var n := r.Size();
    assert c.end - c.start == n * c.stride;
    Arith.DivModOf(n, 0, c.stride);
  }

  /** A composed range never holds more positions than were requested. */
  lemma ComposeSizeAtMost(p: Slice, r: Slice)
    requires r.Valid() && Compose(p, r).Valid()
    ensures Compose(p, r).Size() <= r.Size()
  {
    var c := Compose(p, r);
    var n := c.Size();
    SizeIsFloor(c);
    if n > r.Size() {
      Arith.MulLe(r.Size() + 1, n, c.stride);
      assert false;
    }
  }

  /** A requested start other than 0 always loses positions: the composed
      end is placed as if the range began at the parent's start, so the
      composed range is shorter than the requested one. */
  lemma ComposeLoses(p: Slice, r: Slice)
    requires p.stride >= 1 && r.Valid() && Compose(p, r).Valid() && r.start > 0
    ensures Compose(p, r).Size() < r.Size()
  {
    var c := Compose(p, r);
    var n := c.Size();
    SizeIsFloor(c);
    assert c.end - c.start < r.Size() * c.stride;
    if n >= r.Size() {
      Arith.MulLe(r.Size(), n, c.stride);
      assert false;
    }
  }

  /** The unit range `{k, k + 1}` composed into a parent range: it is a
      valid range only up to the parent's stride, and it keeps its one
      position only for `k == 0`, since the end lands one parent stride
      past the parent's start whatever `k` is. */
  lemma ComposeUnit(p: Slice, k: nat)
    requires p.stride >= 1
    ensures Compose(p, Unit(k)).Valid() <==> k <= p.stride
    ensures k <= p.stride ==> (Compose(p, Unit(k)).Size() == 1 <==> k == 0)
  {
    var c := Compose(p, Unit(k));
    assert c == Slice(p.start + k, p.start + p.stride, p.stride);
    if k == 0 {
      ComposeFromZero(p, Unit(k));
    } else if k <= p.stride {
      ComposeLoses(p, Unit(k));
    }
  }

  /** A requested start other than 0 shrinks the composed range: rows
      1..3 of a unit-stride range come back as a single row. */
  lemma ComposeShrinks()
    ensures Slice(1, 3, 1).Size() == 2
    ensures Compose(Slice(0, 4, 1), Slice(1, 3, 1)).Size() == 1
  {
  }
}
