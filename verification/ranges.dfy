/** The interval value type: a closed range `[min, max]` of a scalar domain
    (typically an angle in radians) that carries, at each boundary, the
    distance to the obstacle that produced that boundary.

    Bounds are exact reals; the source stores them as `double`. */
module ValueRange {

  datatype Range = Range(min: real, max: real, minDist: real, maxDist: real)

  /** Every operation of the interval set assumes `min <= max`; nothing
      enforces it. */
  predicate WellFormed(r: Range) {
    r.min <= r.max
  }

  /** Point membership in the closed interval. */
  predicate Contains(r: Range, x: real) {
    r.min <= x <= r.max
  }

  /** Point membership in the open interval; boundary values do not match. */
  predicate StrictlyContains(r: Range, x: real) {
    r.min < x < r.max
  }

  /** `inner` lies within the bounds of `outer`. */
  predicate Inside(inner: Range, outer: Range) {
    outer.min <= inner.min && inner.max <= outer.max
  }

  /** The two closed intervals share a point, boundaries included. */
  predicate Meets(a: Range, b: Range) {
    a.min <= b.max && b.min <= a.max
  }

  /** The two closed intervals have no point in common. */
  predicate Apart(a: Range, b: Range) {
    a.max < b.min || b.max < a.min
  }

  /** The two-argument constructor: both boundary distances are zero. */
  function Interval(lo: real, hi: real): (r: Range)
    ensures r.minDist == 0.0 && r.maxDist == 0.0
    ensures forall x :: Contains(r, x) <==> lo <= x <= hi
  {
    Range(lo, hi, 0.0, 0.0)
  }

  /** `getSize`: the length of the interval. */
  function Size(r: Range): (s: real)
    ensures s >= 0.0 <==> WellFormed(r)
    ensures forall x, y :: Contains(r, x) && Contains(r, y) ==> y - x <= s
    ensures WellFormed(r) ==> Contains(r, r.min + s)
  {
    r.max - r.min
  }

  /** `getMiddle`: the centre of the interval. */
  function Middle(r: Range): (m: real)
    ensures WellFormed(r) <==> Contains(r, m)
    ensures m - r.min == r.max - m
  {
    (r.max + r.min) / 2.0
  }

  /** The two-argument `resize`: new bounds, boundary distances kept. */
  function Resize(r: Range, lo: real, hi: real): (s: Range)
    ensures s.minDist == r.minDist && s.maxDist == r.maxDist
    ensures forall x :: Contains(s, x) <==> lo <= x <= hi
  {
    r.(min := lo, max := hi)
  }

  /** For well-formed intervals, sharing a point is what `Meets` says, and
      `Apart` is its negation. */
  lemma MeetsIffSharedPoint(a: Range, b: Range)
    requires WellFormed(a) && WellFormed(b)
    ensures Meets(a, b) <==> exists x :: Contains(a, x) && Contains(b, x)
    ensures Apart(a, b) <==> !Meets(a, b)
  {
    if Meets(a, b) {
      var x := if a.min <= b.min then b.min else a.min;
      assert Contains(a, x) && Contains(b, x);
    }
  }

  /** Shrinking two apart intervals keeps them apart. */
  lemma InsideApart(y: Range, x: Range, z: Range, w: Range)
    requires Inside(y, x) && Inside(z, w) && Apart(x, w)
    ensures Apart(y, z)
  {
  }
}
