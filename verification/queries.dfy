/** The read-only selection queries of the interval set. The source returns
    a pointer into the list, or null; here the result is the index of the
    chosen interval. The distance-weighted `getWidth` score is a parameter
    `width`, so the selection logic holds for whatever score is supplied. */
module RangeQueries {
  import opened ValueRange

  datatype Option<T> = None | Some(value: T)

  /** `k` is the first index whose score is at least every other score: the
      loops keep the current best unless a strictly larger score appears. */
  predicate IsFirstMax(l: seq<Range>, k: nat, score: Range -> real) {
    && k < |l|
    && (forall j :: 0 <= j < |l| ==> score(l[j]) <= score(l[k]))
    && (forall j :: 0 <= j < k ==> score(l[j]) < score(l[k]))
  }

  /** Distance from the centre of `r` to `base` (`abs(getMiddle() - base)`). */
  function Gap(r: Range, base: real): (g: real)
    ensures g >= 0.0
    ensures g == Middle(r) - base || g == base - Middle(r)
  {
    if Middle(r) >= base then Middle(r) - base else base - Middle(r)
  }

  /** `k` is the first index, among those whose score reaches `size`, whose
      centre is closest to `base`. */
  predicate IsFirstClosest(l: seq<Range>, k: nat, base: real, size: real, score: Range -> real) {
    && k < |l|
    && score(l[k]) >= size
    && (forall j :: 0 <= j < |l| && score(l[j]) >= size ==> Gap(l[k], base) <= Gap(l[j], base))
    && (forall j :: 0 <= j < k && score(l[j]) >= size ==> Gap(l[k], base) < Gap(l[j], base))
  }

  /** The loop shared by `getMaxRange` and `getMaxRangeWidth`. */
  method MaxRangeBy(l: seq<Range>, score: Range -> real) returns (best: Option<nat>)
    ensures best.None? <==> |l| == 0
    ensures best.Some? ==> IsFirstMax(l, best.value, score)
  {
    if |l| == 0 {
      return None;
    }
    var b := 0;
    var k := 1;
    while k < |l|
      invariant 1 <= k <= |l| && b < k
      invariant forall j :: 0 <= j < k ==> score(l[j]) <= score(l[b])
      invariant forall j :: 0 <= j < b ==> score(l[j]) < score(l[b])
    {
      if score(l[k]) > score(l[b]) {
        b := k;
      }
      k := k + 1;
    }
    return Some(b);
  }

  /** `getMaxRange`: the first interval of largest size. */
  method GetMaxRange(l: seq<Range>) returns (best: Option<nat>)
    ensures best.None? <==> |l| == 0
    ensures best.Some? ==>
      && best.value < |l|
      && (forall j :: 0 <= j < |l| ==> Size(l[j]) <= Size(l[best.value]))
      && (forall j :: 0 <= j < best.value ==> Size(l[j]) < Size(l[best.value]))
  {
    best := MaxRangeBy(l, Size);
  }

  /** `getMaxRangeWidth`: the first interval of largest width score. */
  method GetMaxRangeWidth(l: seq<Range>, width: Range -> real) returns (best: Option<nat>)
    ensures best.None? <==> |l| == 0
    ensures best.Some? ==>
      && best.value < |l|
      && (forall j :: 0 <= j < |l| ==> width(l[j]) <= width(l[best.value]))
      && (forall j :: 0 <= j < best.value ==> width(l[j]) < width(l[best.value]))
  {
    best := MaxRangeBy(l, width);
  }

  /** The loop shared by `getClosestRange` and `getClosestRangeWidth`. */
  method ClosestRangeBy(l: seq<Range>, base: real, size: real, score: Range -> real) returns (best: Option<nat>)
    ensures best.None? <==> forall j :: 0 <= j < |l| ==> score(l[j]) < size
    ensures best.Some? ==> IsFirstClosest(l, best.value, base, size, score)
  {
    best := None;
    var minDist := 0.0;
    var k := 0;
    while k < |l|
      invariant 0 <= k <= |l|
      invariant best.None? <==> forall j :: 0 <= j < k ==> score(l[j]) < size
      invariant best.Some? ==> best.value < k && minDist == Gap(l[best.value], base)
      invariant best.Some? ==> IsFirstClosest(l[..k], best.value, base, size, score)
    {
      if score(l[k]) >= size {
        if best.None? {
          best := Some(k);
          minDist := Gap(l[k], base);
        } else {
          var dist := Gap(l[k], base);
          if dist < minDist {
            best := Some(k);
            minDist := dist;
          }
        }
      }
      k := k + 1;
    }
    assert l[..k] == l;
  }

  /** `getClosestRange`: among intervals of size at least `size`, the first
      whose centre is closest to `base`; none when no interval is that large. */
  method GetClosestRange(l: seq<Range>, base: real, size: real) returns (best: Option<nat>)
    ensures best.None? <==> forall j :: 0 <= j < |l| ==> Size(l[j]) < size
    ensures best.Some? ==>
      && best.value < |l| && Size(l[best.value]) >= size
      && (forall j :: 0 <= j < |l| && Size(l[j]) >= size ==> Gap(l[best.value], base) <= Gap(l[j], base))
      && (forall j :: 0 <= j < best.value && Size(l[j]) >= size ==> Gap(l[best.value], base) < Gap(l[j], base))
  {
    best := ClosestRangeBy(l, base, size, Size);
  }

  /** `getClosestRangeWidth`: the same selection, by width score. */
  method GetClosestRangeWidth(l: seq<Range>, base: real, size: real, width: Range -> real) returns (best: Option<nat>)
    ensures best.None? <==> forall j :: 0 <= j < |l| ==> width(l[j]) < size
    ensures best.Some? ==>
      && best.value < |l| && width(l[best.value]) >= size
      && (forall j :: 0 <= j < |l| && width(l[j]) >= size ==> Gap(l[best.value], base) <= Gap(l[j], base))
      && (forall j :: 0 <= j < best.value && width(l[j]) >= size ==> Gap(l[best.value], base) < Gap(l[j], base))
  {
    best := ClosestRangeBy(l, base, size, width);
  }

  /** `findRange`: the first interval holding `value` strictly inside it;
      boundary values do not match. */
  method FindRange(l: seq<Range>, value: real) returns (found: Option<nat>)
    ensures found.None? <==> forall j :: 0 <= j < |l| ==> !StrictlyContains(l[j], value)
    ensures found.Some? ==>
      && found.value < |l| && StrictlyContains(l[found.value], value)
      && forall j :: 0 <= j < found.value ==> !StrictlyContains(l[j], value)
  {
    var k := 0;
    while k < |l|
      invariant 0 <= k <= |l|
      invariant forall j :: 0 <= j < k ==> !StrictlyContains(l[j], value)
    {
      if l[k].min < value && l[k].max > value {
        return Some(k);
      }
      k := k + 1;
    }
    return None;
  }

  /** The selection is deterministic: at most one index is the first
      maximum, so ties always resolve to the earliest interval. */
  lemma FirstMaxUnique(l: seq<Range>, k1: nat, k2: nat, score: Range -> real)
    requires IsFirstMax(l, k1, score) && IsFirstMax(l, k2, score)
    ensures k1 == k2
  {
    assert score(l[k1]) == score(l[k2]);
  }

  /** At most one index is the first closest qualifying interval. */
  lemma FirstClosestUnique(l: seq<Range>, k1: nat, k2: nat, base: real, size: real, score: Range -> real)
    requires IsFirstClosest(l, k1, base, size, score) && IsFirstClosest(l, k2, base, size, score)
    ensures k1 == k2
  {
  }

  /** The two arcs left by cutting `[-1, 1]` out of `[-pi, pi]` have the same
      size, and the first of them is the one selected. */
  lemma EqualArcsPickFirst(pi: real)
    requires 1.0 < pi
    ensures IsFirstMax([Interval(-pi, -1.0), Interval(1.0, pi)], 0, Size)
    ensures !IsFirstMax([Interval(-pi, -1.0), Interval(1.0, pi)], 1, Size)
  {
    var l := [Interval(-pi, -1.0), Interval(1.0, pi)];
    assert Size(l[0]) == Size(l[1]);
  }
}
