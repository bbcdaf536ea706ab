/** Small facts about multiplication, division and row-major flattening of
    natural numbers, shared by the descriptor modules. */
module Arith {

  lemma MulLe(a: nat, b: nat, c: nat)
    requires a <= b
    ensures a * c <= b * c
  {
    assert b * c == a * c + (b - a) * c;
  }

  /** `i * c + j` with `j < c` splits back into quotient `i` and remainder `j`. */
  lemma {:induction false} DivModOf(i: nat, j: nat, c: nat)
    requires j < c
    ensures (i * c + j) / c == i && (i * c + j) % c == j
  {
    var k := i * c + j;
    var q, m := k / c, k % c;
    assert k == c * q + m && 0 <= m < c;
    if q > i {
      MulLe(i + 1, q, c);
      assert false;
    } else if q < i {
      MulLe(q + 1, i, c);
      assert false;
    }
  }

  /** A flat index below `r * c` has its quotient below `r`. */
  lemma DivBelow(k: nat, r: nat, c: nat)
    requires k < r * c
    ensures c > 0 && 0 <= k / c < r && 0 <= k % c < c
    ensures (k / c) * c + k % c == k
  {
    if c == 0 {
      assert false;
    } else if k / c >= r {
      MulLe(r, k / c, c);
      assert false;
    }
  }

  /** Row-major positions are unique: equal flattenings come from equal pairs. */
  lemma RowMajorUnique(r1: nat, c1: nat, r2: nat, c2: nat, w: nat)
    requires c1 < w && c2 < w && r1 * w + c1 == r2 * w + c2
    ensures r1 == r2 && c1 == c2
  {
    DivModOf(r1, c1, w);
    DivModOf(r2, c2, w);
  }

  /** A cell of an `h` by `w` grid flattens below `h * w`. */
  lemma RowMajorBelow(r: nat, c: nat, h: nat, w: nat)
    requires r < h && c < w
    ensures r * w + c < h * w
  {
    MulLe(r + 1, h, w);
  }

  /** Cancelling a positive factor. */
  lemma MulCancel(a: nat, b: nat, c: nat)
    requires c > 0 && a * c == b * c
    ensures a == b
  {
  }

  lemma Distrib(a: nat, b: nat, c: nat)
    ensures (a + b) * c == a * c + b * c
  {
  }

  lemma MulAssoc(a: nat, b: nat, c: nat)
    ensures (a * b) * c == a * (b * c)
  {
  }

  /** Row-major flattening is one-to-one on in-range columns. */
  lemma RowMajorEqIff(x: nat, y: nat, x': nat, y': nat, w: nat)
    requires y < w && y' < w
    ensures x * w + y == x' * w + y' <==> x == x' && y == y'
  {
    if x * w + y == x' * w + y' {
      RowMajorUnique(x, y, x', y', w);
    }
  }
}
