/** Pixel values as the source's floating-point arrays hold them.
    A pixel is a finite number, NaN, or a signed infinity; arithmetic follows
    IEEE 754 over exact reals (rounding, overflow and signed zero are not modelled). */
module Pixels {

  datatype Px = Finite(v: real) | NaN | Inf(pos: bool)

  type Grid<T> = seq<seq<T>>

  /** numpy's isnan */
  predicate IsNaN(p: Px) { p.NaN? }

  /** numpy's isinf */
  predicate IsInf(p: Px) { p.Inf? }

  /** `p != 0`: NaN and the infinities compare unequal to zero */
  predicate NonZero(p: Px) {
    match p
    case Finite(x) => x != 0.0
    case NaN => true
    case Inf(_) => true
  }

  /** `astype(bool)`: the truth value of a pixel */
  predicate Truthy(p: Px) { NonZero(p) }

  /** `p < t`: every comparison with NaN is false */
  predicate Less(p: Px, t: real) {
    match p
    case Finite(x) => x < t
    case NaN => false
    case Inf(pos) => !pos
  }

  /** `p > t` */
  predicate Greater(p: Px, t: real) {
    match p
    case Finite(x) => x > t
    case NaN => false
    case Inf(pos) => pos
  }

  /** `a / b` on float pixels */
  function Div(a: Px, b: Px): (q: Px)
    ensures a.Finite? && b.Finite? && b.v != 0.0 ==> q == Finite(a.v / b.v)
    ensures (a.NaN? || b.NaN?) ==> q.NaN?
    ensures a.Finite? && b.Finite? && b.v == 0.0 ==> !q.Finite?
  {
    match (a, b)
    case (NaN, _) => NaN
    case (_, NaN) => NaN
    case (Inf(_), Inf(_)) => NaN
    case (Inf(s), Finite(y)) => Inf(if y < 0.0 then !s else s)
    case (Finite(_), Inf(_)) => Finite(0.0)
    case (Finite(x), Finite(y)) =>
      if y != 0.0 then Finite(x / y)
      else if x == 0.0 then NaN
      else Inf(x > 0.0)
  }

  /** `a * b` on float pixels */
  function Mul(a: Px, b: Px): (p: Px)
    ensures a.Finite? && b.Finite? ==> p == Finite(a.v * b.v)
    ensures (a.NaN? || b.NaN?) ==> p.NaN?
  {
    if a.NaN? || b.NaN? then NaN
    else if a.Finite? && b.Finite? then Finite(a.v * b.v)
    else if a.Inf? && b.Inf? then Inf(a.pos == b.pos)
    else if a.Inf? then (if b.v == 0.0 then NaN else Inf(if b.v < 0.0 then !a.pos else a.pos))
    else (if a.v == 0.0 then NaN else Inf(if a.v < 0.0 then !b.pos else b.pos))
  }

  /** A boolean used as a number (`True` is 1, `False` is 0) */
  function FromBool(b: bool): Px { if b then Finite(1.0) else Finite(0.0) }

  /** Multiplying a pixel by `True` keeps it; by `False` zeroes a finite pixel and
      turns NaN and the infinities into NaN. */
  lemma MulByBool(b: bool, p: Px)
    ensures b ==> Mul(FromBool(b), p) == p
    ensures !b ==> Mul(FromBool(b), p) == (if p.Finite? then Finite(0.0) else NaN)
  {
  }

  /** Every row of `g` has `nx` entries and there are `ny` rows */
  predicate Shaped<T>(g: Grid<T>, ny: nat, nx: nat) {
    |g| == ny && forall i :: 0 <= i < ny ==> |g[i]| == nx
  }

  /** A rectangular grid */
  ghost predicate Rect<T>(g: Grid<T>) {
    |g| == 0 || Shaped(g, |g|, |g[0]|)
  }

  /** Element-wise application of `f` (a numpy ufunc over a 2-D array) */
  function Apply<A, B>(g: Grid<A>, f: A -> B): (r: Grid<B>)
    ensures |r| == |g|
    ensures forall i :: 0 <= i < |g| ==> |r[i]| == |g[i]|
    ensures forall i, j :: 0 <= i < |g| && 0 <= j < |g[i]| ==> r[i][j] == f(g[i][j])
  {
    seq(|g|, i requires 0 <= i < |g| => seq(|g[i]|, j requires 0 <= j < |g[i]| => f(g[i][j])))
  }

  /** Element-wise combination of two grids of one shape */
  function Combine<A, B, C>(g: Grid<A>, h: Grid<B>, f: (A, B) -> C): (r: Grid<C>)
    requires |g| == |h| && forall i :: 0 <= i < |g| ==> |g[i]| == |h[i]|
    ensures |r| == |g|
    ensures forall i :: 0 <= i < |g| ==> |r[i]| == |g[i]|
    ensures forall i, j :: 0 <= i < |g| && 0 <= j < |g[i]| ==> r[i][j] == f(g[i][j], h[i][j])
  {
    seq(|g|, i requires 0 <= i < |g| => seq(|g[i]|, j requires 0 <= j < |g[i]| => f(g[i][j], h[i][j])))
  }

  /** Every pixel of the grid is finite */
  ghost predicate AllFinite(g: Grid<Px>) {
    forall i, j :: 0 <= i < |g| && 0 <= j < |g[i]| ==> g[i][j].Finite?
  }

  /** No pixel is NaN */
  ghost predicate NoNaN(g: Grid<Px>) {
    forall i, j :: 0 <= i < |g| && 0 <= j < |g[i]| ==> !g[i][j].NaN?
  }

  /** No pixel is infinite */
  ghost predicate NoInf(g: Grid<Px>) {
    forall i, j :: 0 <= i < |g| && 0 <= j < |g[i]| ==> !g[i][j].Inf?
  }
}
