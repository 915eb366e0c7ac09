/** `removeAngleRange`: removal of the window `[center - halfSize, center +
    halfSize]` from a set of angles on the circle `[-pi, pi]`. A window that
    crosses the seam at `-pi` or `pi` becomes two ordinary removals, one at
    each end of the domain. `pi` stands for the external constant
    `Param::Math::PI`. */
module AngleRemove {
  import opened ValueRange
  import opened RangeLists
  import opened RangeRemove

  /** What the source needs of its arguments so that every cut it issues is
      non-degenerate (otherwise its `remove` loop may never end): a positive
      half size and a window that reaches into the open domain. */
  predicate AngleArgs(center: real, halfSize: real, pi: real) {
    0.0 < pi && 0.0 < halfSize && -pi < center + halfSize && center - halfSize < pi
  }

  /** The cuts `CU_valuRange.h` lines 93-105 (and 110-122) pass to `remove`, in order, each
      with `dist` at both boundaries. */
  function AngleCuts(center: real, halfSize: real, dist: real, pi: real): (cuts: seq<Range>)
    requires AngleArgs(center, halfSize, pi)
    ensures 1 <= |cuts| <= 2
    ensures forall c :: c in cuts ==> NonDegenerate(c) && c.minDist == dist && c.maxDist == dist
  {
    var angleMin := center - halfSize;
    var angleMax := center + halfSize;
    if angleMin < -pi then
      [Range(-pi, angleMax, dist, dist), Range(angleMin + pi * 2.0, pi, dist, dist)]
    else if angleMax > pi then
      [Range(angleMin, pi, dist, dist), Range(-pi, angleMax - pi * 2.0, dist, dist)]
    else
      [Range(angleMin, angleMax, dist, dist)]
  }

  /** The three-argument overload. */
  function RemoveAngleRangeDist(l: seq<Range>, center: real, halfSize: real, dist: real, pi: real): (r: seq<Range>)
    requires AngleArgs(center, halfSize, pi)
    ensures forall y :: y in r ==> exists i :: i in l && Inside(y, i)
  {
    RemoveAll(l, AngleCuts(center, halfSize, dist, pi))
  }

  /** The two-argument overload: the cuts carry zero distances, as the
      two-argument `CValueRange` constructor gives them. */
  function RemoveAngleRange(l: seq<Range>, center: real, halfSize: real, pi: real): (r: seq<Range>)
    requires AngleArgs(center, halfSize, pi)
    ensures forall y :: y in r ==> exists i :: i in l && Inside(y, i)
  {
    RemoveAngleRangeDist(l, center, halfSize, 0.0, pi)
  }

  /** `x` lies strictly inside the window, read on the circle (up to one turn
      either way). */
  predicate InWindow(x: real, center: real, halfSize: real, pi: real) {
    || (center - halfSize < x < center + halfSize)
    || (center - halfSize < x - 2.0 * pi < center + halfSize)
    || (center - halfSize < x + 2.0 * pi < center + halfSize)
  }

  /** `x` lies in the closed window, read on the circle. */
  predicate InClosedWindow(x: real, center: real, halfSize: real, pi: real) {
    || (center - halfSize <= x <= center + halfSize)
    || (center - halfSize <= x - 2.0 * pi <= center + halfSize)
    || (center - halfSize <= x + 2.0 * pi <= center + halfSize)
  }

  lemma WindowIsCuts(center: real, halfSize: real, dist: real, pi: real, x: real)
    requires AngleArgs(center, halfSize, pi)
    ensures -pi < x < pi && InWindow(x, center, halfSize, pi) ==>
      exists c :: c in AngleCuts(center, halfSize, dist, pi) && c.min < x < c.max
    ensures -pi <= x <= pi && !InClosedWindow(x, center, halfSize, pi) ==>
      forall c :: c in AngleCuts(center, halfSize, dist, pi) ==> x < c.min || c.max < x
  {
    var cuts := AngleCuts(center, halfSize, dist, pi);
    if -pi < x < pi && InWindow(x, center, halfSize, pi) {
      if x < center + halfSize || cuts[0].min < x < cuts[0].max {
        assert cuts[0] in cuts;
      } else {
        assert cuts[1] in cuts;
      }
    }
  }

  /** Wrap-around removal: inside the open domain, no point of the window
      (read on the circle) stays covered; every covered point of the closed
      domain outside the closed window stays covered; nothing new is
      covered. Holds for both overloads, whatever the distance. */
  lemma AngleRemovalClearsWindow(l: seq<Range>, center: real, halfSize: real, dist: real, pi: real)
    requires AngleArgs(center, halfSize, pi)
    ensures forall x :: -pi < x < pi && InWindow(x, center, halfSize, pi) ==>
      !Covers(RemoveAngleRangeDist(l, center, halfSize, dist, pi), x)
    ensures forall x :: -pi <= x <= pi && Covers(l, x) && !InClosedWindow(x, center, halfSize, pi) ==>
      Covers(RemoveAngleRangeDist(l, center, halfSize, dist, pi), x)
    ensures forall x :: Covers(RemoveAngleRangeDist(l, center, halfSize, dist, pi), x) ==> Covers(l, x)
  {
    var cuts := AngleCuts(center, halfSize, dist, pi);
    forall x
      ensures -pi < x < pi && InWindow(x, center, halfSize, pi) ==>
        !Covers(RemoveAngleRangeDist(l, center, halfSize, dist, pi), x)
      ensures -pi <= x <= pi && Covers(l, x) && !InClosedWindow(x, center, halfSize, pi) ==>
        Covers(RemoveAngleRangeDist(l, center, halfSize, dist, pi), x)
      ensures Covers(RemoveAngleRangeDist(l, center, halfSize, dist, pi), x) ==> Covers(l, x)
    {
      RemoveAllCovers(l, cuts, x);
      WindowIsCuts(center, halfSize, dist, pi, x);
    }
  }

  /** A keep-out window across the seam at `pi`: centre `pi - 0.1`, half
      size `0.2` cuts `[pi - 0.3, pi]` and then `[-pi, -pi + 0.1]`. */
  lemma SeamWindowCuts(pi: real, dist: real)
    requires 1.0 < pi
    ensures AngleCuts(pi - 0.1, 0.2, dist, pi)
      == [Range(pi - 0.3, pi, dist, dist), Range(-pi, -pi + 0.1, dist, dist)]
  {
  }
}
