/** Worked examples of the mutation algebra, and the round trips they
    illustrate, stated for symbolic bounds. */
module RangeScenarios {
  import opened ValueRange
  import opened RangeLists
  import opened RangeAdd
  import opened RangeRemove

  /** Cutting `[-1, 1]` out of the full circle `[-pi, pi]` leaves the two
      arcs `[-pi, -1]` and `[1, pi]`, in that order, with zero distances. */
  lemma CutCentreOfCircle(pi: real)
    requires 1.0 < pi
    ensures Remove([Interval(-pi, pi)], Interval(-1.0, 1.0))
      == [Interval(-pi, -1.0), Interval(1.0, pi)]
  {
    var l := [Interval(-pi, pi)];
    var cut := Interval(-1.0, 1.0);
    RemoveIsSurvivorsThenRemainders(l, cut);
    assert Survivors(l, cut) == [] by {
      assert CutStep(l[0], cut).Split?;
    }
  }

  /** Adding `[0, 2]` and then `[1, 3]` to an empty set gives the single
      interval `[0, 3]`. */
  lemma OverlappingAddsMerge()
    ensures AddAll([], [Interval(0.0, 2.0), Interval(1.0, 3.0)]) == [Interval(0.0, 3.0)]
  {
    var a := Interval(0.0, 2.0);
    var b := Interval(1.0, 3.0);
    assert Add([], a) == [a];
    assert AddStep(a, b) == Extend(Interval(0.0, 3.0));
    assert AddScan([], [a], b) == AddScan([], [], Interval(0.0, 3.0));
  }

  /** Splitting an interval with a cut strictly inside it and then adding
      the cut back restores the interval's bounds. The lower distance is
      kept; the upper one becomes the cut's `minDist`, because the clipped
      upper piece received it when it was revisited. */
  lemma SplitThenRejoin(i: Range, cut: Range)
    requires i.min < cut.min < cut.max < i.max
    ensures Add(Remove([i], cut), cut) == [Range(i.min, i.max, i.minDist, cut.minDist)]
  {
    var lower := Range(i.min, cut.min, i.minDist, cut.minDist);
    var upper := Range(cut.max, i.max, cut.maxDist, cut.minDist);
    RemoveIsSurvivorsThenRemainders([i], cut);
    assert Survivors([i], cut) == [] by {
      assert CutStep(i, cut).Split?;
    }
    assert Remove([i], cut) == [lower, upper];
    var mid := Range(i.min, cut.max, i.minDist, cut.maxDist);
    assert AddStep(lower, cut) == Extend(mid);
    assert AddStep(upper, mid) == Extend(Range(i.min, i.max, i.minDist, cut.minDist));
    assert AddScan([], [lower, upper], cut) == AddScan([], [upper], mid);
  }

  /** Adding a range that some interval already holds leaves the covered
      points unchanged, whether or not the list is disjoint. */
  lemma SubsumedAddKeepsCover(l: seq<Range>, range: Range, i: Range)
    requires i in l && Inside(range, i)
    ensures forall x :: Covers(Add(l, range), x) <==> Covers(l, x)
  {
    AddCovers(l, range);
  }
}
