/** Index arithmetic of numpy slices, and sums and scalings of real-valued images. */
module Grids {
  import opened Pixels

  /** One bound of a Python slice over an axis of length `len` */
  function SliceBound(b: int, len: nat): (r: nat)
    ensures r <= len
  {
    if b < 0 then (if b + len < 0 then 0 else b + len)
    else if b > len then len else b
  }

  /** Number of entries in `a[lo:hi]` along an axis of length `len` */
  function SliceLength(lo: int, hi: int, len: nat): nat {
    var s := SliceBound(lo, len);
    var e := SliceBound(hi, len);
    if e > s then e - s else 0
  }

  /** The slice `[t : t + w]` has exactly `w` entries when it lies inside the axis, and
      also when both bounds are negative and wrap around from the end; never otherwise */
  lemma SliceFitsIff(t: int, w: nat, len: nat)
    requires 0 < w <= len
    ensures SliceLength(t, t + w, len) == w <==> (0 <= t && t + w <= len) || (-(len as int) <= t && t + w < 0)
    ensures 0 <= t && t + w <= len ==> SliceBound(t, len) == t
  {
  }


  /** `np.sum(row[left : left + w])` for a run of columns inside the row */
  function RowWindowSum(row: seq<real>, left: nat, w: nat): real
    requires left + w <= |row|
    decreases w
  {
    if w == 0 then 0.0 else RowWindowSum(row, left, w - 1) + row[left + w - 1]
  }

  /** `np.sum` of one row */
  function RowSum(s: seq<real>): real {
    RowWindowSum(s, 0, |s|)
  }

  /** The sum of the first `n` rows */
  function RowsSum(g: Grid<real>, n: nat): real
    requires n <= |g|
    decreases n
  {
    if n == 0 then 0.0 else RowsSum(g, n - 1) + RowSum(g[n - 1])
  }

  /** `np.sum` of an image */
  function GridSum(g: Grid<real>): real {
    RowsSum(g, |g|)
  }

  function ScaleRow(s: seq<real>, k: real): (r: seq<real>)
    ensures |r| == |s| && forall j :: 0 <= j < |s| ==> r[j] == s[j] * k
  {
    seq(|s|, j requires 0 <= j < |s| => s[j] * k)
  }

  /** `g * k` (and `g / d` as `g * (1 / d)`) */
  function Scaled(g: Grid<real>, k: real): (r: Grid<real>)
    ensures |r| == |g| && forall i :: 0 <= i < |g| ==> r[i] == ScaleRow(g[i], k)
  {
    seq(|g|, i requires 0 <= i < |g| => ScaleRow(g[i], k))
  }

  /** `np.sum(g[top : top + h, left : left + w])` for a window inside the image */
  function WindowSum(g: Grid<real>, top: nat, left: nat, h: nat, w: nat): real
    requires top + h <= |g| && forall i :: top <= i < top + h ==> left + w <= |g[i]|
    decreases h
  {
    if h == 0 then 0.0 else WindowSum(g, top, left, h - 1, w) + RowWindowSum(g[top + h - 1], left, w)
  }

  /** Distributivity, kept apart so that sums stay linear in the proofs below */
  lemma ScaleSum(k: real, a: real, b: real, c: real)
    requires c == a + b
    ensures k * c == k * a + k * b
  {
  }

  lemma {:induction false} RowWindowSumScaled(row: seq<real>, k: real, left: nat, w: nat)
    requires left + w <= |row|
    ensures RowWindowSum(ScaleRow(row, k), left, w) == k * RowWindowSum(row, left, w)
    decreases w
  {
    if w > 0 {
      RowWindowSumScaled(row, k, left, w - 1);
      ScaleSum(k, RowWindowSum(row, left, w - 1), row[left + w - 1], RowWindowSum(row, left, w));
    }
  }

  lemma RowSumScaled(s: seq<real>, k: real)
    ensures RowSum(ScaleRow(s, k)) == k * RowSum(s)
  {
    RowWindowSumScaled(s, k, 0, |s|);
  }

  lemma {:induction false} RowsSumScaled(g: Grid<real>, k: real, n: nat)
    requires n <= |g|
    ensures RowsSum(Scaled(g, k), n) == k * RowsSum(g, n)
    decreases n
  {
    if n > 0 {
      RowsSumScaled(g, k, n - 1);
      RowSumScaled(g[n - 1], k);
      ScaleSum(k, RowsSum(g, n - 1), RowSum(g[n - 1]), RowsSum(g, n));
    }
  }

  /** Scaling an image scales its sum */
  lemma GridSumScaled(g: Grid<real>, k: real)
    ensures GridSum(Scaled(g, k)) == k * GridSum(g)
  {
    RowsSumScaled(g, k, |g|);
  }

  /** Scaling an image scales the sum over any window of it */
  lemma {:induction false} WindowSumScaled(g: Grid<real>, k: real, top: nat, left: nat, h: nat, w: nat)
    requires top + h <= |g| && forall i :: top <= i < top + h ==> left + w <= |g[i]|
    ensures WindowSum(Scaled(g, k), top, left, h, w) == k * WindowSum(g, top, left, h, w)
    decreases h
  {
    if h > 0 {
      WindowSumScaled(g, k, top, left, h - 1, w);
      RowWindowSumScaled(g[top + h - 1], k, left, w);
      var sg := Scaled(g, k);
      assert sg[top + h - 1] == ScaleRow(g[top + h - 1], k);
      assert WindowSum(sg, top, left, h, w) == WindowSum(sg, top, left, h - 1, w) + RowWindowSum(sg[top + h - 1], left, w);
      ScaleSum(k, WindowSum(g, top, left, h - 1, w), RowWindowSum(g[top + h - 1], left, w), WindowSum(g, top, left, h, w));
    }
  }

  /** Scaling twice is scaling by the product */
  lemma ScaledScaled(g: Grid<real>, a: real, b: real)
    ensures Scaled(Scaled(g, a), b) == Scaled(g, a * b)
  {
    var l := Scaled(Scaled(g, a), b);
    var r := Scaled(g, a * b);
    forall i | 0 <= i < |g| ensures l[i] == r[i] {
      assert forall j :: 0 <= j < |g[i]| ==> l[i][j] == r[i][j];
    }
  }

  lemma {:induction false} RowsAreWindow(g: Grid<real>, n: nat, w: nat)
    requires n <= |g| && Shaped(g, |g|, w)
    ensures WindowSum(g, 0, 0, n, w) == RowsSum(g, n)
    decreases n
  {
    if n > 0 {
      RowsAreWindow(g, n - 1, w);
    }
  }

  /** The window covering a whole rectangular image sums to the image's total */
  lemma WholeWindowIsGridSum(g: Grid<real>, w: nat)
    requires Shaped(g, |g|, w)
    ensures WindowSum(g, 0, 0, |g|, w) == GridSum(g)
  {
    RowsAreWindow(g, |g|, w);
  }
}
