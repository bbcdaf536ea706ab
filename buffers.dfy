/** What the element loops of the views and owners do to a flat buffer,
    written as the sequential effect of one write per visited offset: a
    cell visited twice is written twice, and a read through a view of the
    buffer being written sees the writes already made. */
module Buffers {

  /** No offset is listed twice. */
  predicate Distinct(offs: seq<nat>) {
    forall a, b :: 0 <= a < b < |offs| ==> offs[a] != offs[b]
  }

  /** Every offset addresses a cell of a buffer of `n` cells. */
  predicate Within(offs: seq<nat>, n: nat) {
    forall k :: 0 <= k < |offs| ==> offs[k] < n
  }

  /** The buffer after `f` has been applied to the cell at each offset in
      turn (`apply(f)` of a view). */
  function MapCells<T>(buf: seq<T>, offs: seq<nat>, f: T -> T): (r: seq<T>)
    requires Within(offs, |buf|)
    ensures |r| == |buf|
    decreases |offs|
  {
    if offs == [] then buf
    else
      var b := MapCells(buf, offs[..|offs| - 1], f);
      var o := offs[|offs| - 1];
      b[o := f(b[o])]
  }

  /** Visiting one more offset applies `f` once more, to that offset's cell. */
  lemma MapCellsSnoc<T>(buf: seq<T>, offs: seq<nat>, o: nat, f: T -> T)
    requires Within(offs, |buf|) && o < |buf|
    ensures Within(offs + [o], |buf|)
    ensures MapCells(buf, offs + [o], f) == MapCells(buf, offs, f)[o := f(MapCells(buf, offs, f)[o])]
  {
    assert (offs + [o])[..|offs|] == offs;
  }

  /** Visiting two runs of offsets one after the other is visiting the
      second run on the buffer the first left behind. */
  lemma {:induction false} MapCellsAppend<T>(buf: seq<T>, offs: seq<nat>, offs2: seq<nat>, f: T -> T)
    requires Within(offs, |buf|) && Within(offs2, |buf|)
    ensures Within(offs + offs2, |buf|)
    ensures MapCells(buf, offs + offs2, f) == MapCells(MapCells(buf, offs, f), offs2, f)
    decreases |offs2|
  {
    if offs2 == [] {
      assert offs + offs2 == offs;
    } else {
      var n := |offs2| - 1;
      assert Within(offs2[..n], |buf|);
      MapCellsAppend(buf, offs, offs2[..n], f);
      assert (offs + offs2)[..|offs| + n] == offs + offs2[..n];
    }
  }

  /** When no offset repeats, each visited cell is transformed once and
      every other cell keeps its value. */
  lemma {:induction false} MapCellsAt<T>(buf: seq<T>, offs: seq<nat>, f: T -> T, p: nat)
    requires Distinct(offs) && Within(offs, |buf|) && p < |buf|
    ensures MapCells(buf, offs, f)[p] == if p in offs then f(buf[p]) else buf[p]
    decreases |offs|
  {
    if offs != [] {
      var n := |offs| - 1;
      var front := offs[..n];
      assert offs == front + [offs[n]];
      assert Distinct(front) && Within(front, |buf|);
      MapCellsAt(buf, front, f, p);
      if p == offs[n] {
        assert p !in front by {
          forall a | 0 <= a < n ensures front[a] != p {
            assert offs[a] != offs[n];
          }
        }
      } else {
        assert (p in offs) == (p in front);
      }
    }
  }

  /** The buffer after `f(dst cell, src cell)` has been written to each
      destination cell in turn (`apply(mr, f)` of a view). The source cells
      are read from `other`, or from the buffer being written when the two
      views share it (`shared`). */
  function ZipCells<T>(buf: seq<T>, other: seq<T>, shared: bool, dst: seq<nat>, src: seq<nat>,
                       f: (T, T) -> T): (r: seq<T>)
    requires |dst| == |src| && Within(dst, |buf|)
    requires Within(src, if shared then |buf| else |other|)
    ensures |r| == |buf|
    decreases |dst|
  {
    if dst == [] then buf
    else
      var n := |dst| - 1;
      var b := ZipCells(buf, other, shared, dst[..n], src[..n], f);
      var y := if shared then b[src[n]] else other[src[n]];
      b[dst[n] := f(b[dst[n]], y)]
  }

  /** Visiting one more destination writes `f` of it and its source once more. */
  lemma ZipCellsSnoc<T>(buf: seq<T>, other: seq<T>, shared: bool, dst: seq<nat>, src: seq<nat>,
                        o: nat, so: nat, f: (T, T) -> T)
    requires |dst| == |src| && Within(dst, |buf|) && o < |buf|
    requires Within(src, if shared then |buf| else |other|) && so < (if shared then |buf| else |other|)
    ensures Within(dst + [o], |buf|) && Within(src + [so], if shared then |buf| else |other|)
    ensures var b := ZipCells(buf, other, shared, dst, src, f);
      ZipCells(buf, other, shared, dst + [o], src + [so], f)
        == b[o := f(b[o], if shared then b[so] else other[so])]
  {
    assert (dst + [o])[..|dst|] == dst && (src + [so])[..|src|] == src;
  }

  /** Visiting two runs of destinations one after the other is visiting
      the second run on the buffer the first left behind. */
  lemma {:induction false} ZipCellsAppend<T>(buf: seq<T>, other: seq<T>, shared: bool, dst: seq<nat>, src: seq<nat>,
                                             dst2: seq<nat>, src2: seq<nat>, f: (T, T) -> T)
    requires |dst| == |src| && |dst2| == |src2| && Within(dst, |buf|) && Within(dst2, |buf|)
    requires Within(src, if shared then |buf| else |other|) && Within(src2, if shared then |buf| else |other|)
    ensures Within(dst + dst2, |buf|) && Within(src + src2, if shared then |buf| else |other|)
    ensures ZipCells(buf, other, shared, dst + dst2, src + src2, f)
         == ZipCells(ZipCells(buf, other, shared, dst, src, f), other, shared, dst2, src2, f)
    decreases |dst2|
  {
    if dst2 == [] {
      assert dst + dst2 == dst && src + src2 == src;
    } else {
      var n := |dst2| - 1;
      assert Within(dst2[..n], |buf|) && Within(src2[..n], if shared then |buf| else |other|);
      ZipCellsAppend(buf, other, shared, dst, src, dst2[..n], src2[..n], f);
      assert (dst + dst2)[..|dst| + n] == dst + dst2[..n];
      assert (src + src2)[..|src| + n] == src + src2[..n];
    }
  }

  /** No source cell is read after a write to it: always true for separate
      buffers, and for a shared buffer when the k-th source cell is none of
      the first k destination cells. */
  predicate ReadsBeforeWrites(shared: bool, dst: seq<nat>, src: seq<nat>)
    requires |dst| == |src|
  {
    shared ==> forall a, b :: 0 <= a < b < |dst| ==> dst[a] != src[b]
  }

  /** With distinct destinations whose sources are read before they are
      overwritten, the k-th destination holds `f` of its old value and its
      source's old value, and every other cell is unchanged. */
  lemma {:induction false} ZipCellsAt<T>(buf: seq<T>, other: seq<T>, shared: bool,
                                         dst: seq<nat>, src: seq<nat>, f: (T, T) -> T, p: nat)
    requires |dst| == |src| && Within(dst, |buf|)
    requires Within(src, if shared then |buf| else |other|)
    requires Distinct(dst) && ReadsBeforeWrites(shared, dst, src) && p < |buf|
    ensures p !in dst ==> ZipCells(buf, other, shared, dst, src, f)[p] == buf[p]
    ensures forall k :: 0 <= k < |dst| && dst[k] == p ==>
      ZipCells(buf, other, shared, dst, src, f)[p] == f(buf[p], (if shared then buf else other)[src[k]])
    decreases |dst|
  {
    if dst != [] {
      var n := |dst| - 1;
      var dF, sF := dst[..n], src[..n];
      var b := ZipCells(buf, other, shared, dF, sF, f);
      assert Distinct(dF) && Within(dF, |buf|);
      assert Within(sF, if shared then |buf| else |other|);
      assert ReadsBeforeWrites(shared, dF, sF);
      ZipCellsAt(buf, other, shared, dF, sF, f, p);
      if shared {
        ZipCellsAt(buf, other, shared, dF, sF, f, src[n]);
      }
      forall k | 0 <= k < |dst| && dst[k] == p
        ensures ZipCells(buf, other, shared, dst, src, f)[p] == f(buf[p], (if shared then buf else other)[src[k]])
      {
        if k < n {
          assert dF[k] == p;
          assert p != dst[n];
        }
      }
    }
  }

  /** The k-th destination of distinct destinations read before written. */
  lemma ZipCellsAtIndex<T>(buf: seq<T>, other: seq<T>, shared: bool,
                           dst: seq<nat>, src: seq<nat>, f: (T, T) -> T, k: nat)
    requires |dst| == |src| && Within(dst, |buf|)
    requires Within(src, if shared then |buf| else |other|)
    requires Distinct(dst) && ReadsBeforeWrites(shared, dst, src) && k < |dst|
    ensures ZipCells(buf, other, shared, dst, src, f)[dst[k]] == f(buf[dst[k]], (if shared then buf else other)[src[k]])
  {
    ZipCellsAt(buf, other, shared, dst, src, f, dst[k]);
  }

  /** The buffer after the k-th offset's cell has been copied to cell k in
      turn (the copy loop of an owner filled from a view). The cells are read
      from `other`, or from the buffer being written when `shared`. */
  function Gather<T>(buf: seq<T>, other: seq<T>, shared: bool, offs: seq<nat>): (r: seq<T>)
    requires |offs| <= |buf| && Within(offs, if shared then |buf| else |other|)
    ensures |r| == |buf|
    decreases |offs|
  {
    if offs == [] then buf
    else
      var n := |offs| - 1;
      var b := Gather(buf, other, shared, offs[..n]);
      b[n := (if shared then b else other)[offs[n]]]
  }

  /** Copying one more cell writes the next cell from the next offset. */
  lemma GatherSnoc<T>(buf: seq<T>, other: seq<T>, shared: bool, offs: seq<nat>, o: nat)
    requires |offs| < |buf| && Within(offs, if shared then |buf| else |other|)
    requires o < (if shared then |buf| else |other|)
    ensures Within(offs + [o], if shared then |buf| else |other|)
    ensures var b := Gather(buf, other, shared, offs);
      Gather(buf, other, shared, offs + [o]) == b[|offs| := (if shared then b else other)[o]]
  {
    assert (offs + [o])[..|offs|] == offs;
  }

  /** No cell is read after it has been overwritten: always true for
      separate buffers, and for a shared buffer when the k-th offset is not
      below k. */
  predicate GatherReadsBeforeWrites(shared: bool, offs: seq<nat>) {
    shared ==> forall k :: 0 <= k < |offs| ==> offs[k] >= k
  }

  /** Cell k then holds the old value at the k-th offset, and the cells past
      the copied ones are unchanged. */
  lemma {:induction false} GatherAt<T>(buf: seq<T>, other: seq<T>, shared: bool, offs: seq<nat>, p: nat)
    requires |offs| <= |buf| && Within(offs, if shared then |buf| else |other|)
    requires GatherReadsBeforeWrites(shared, offs) && p < |buf|
    ensures p < |offs| ==> Gather(buf, other, shared, offs)[p] == (if shared then buf else other)[offs[p]]
    ensures p >= |offs| ==> Gather(buf, other, shared, offs)[p] == buf[p]
    decreases |offs|
  {
    if offs != [] {
      var n := |offs| - 1;
      var front := offs[..n];
      assert Within(front, if shared then |buf| else |other|);
      assert GatherReadsBeforeWrites(shared, front);
      GatherAt(buf, other, shared, front, p);
      if shared {
        GatherAt(buf, other, shared, front, offs[n]);
      }
    }
  }
}
