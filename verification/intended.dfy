/** The low-side clip of `remove` as its surrounding code evidently means
    it. In `CU_valuRange.h`, the split branch pushes the upper remainder with
    distances `(cut.maxDist, i.maxDist)` (line 72): the new lower bound
    takes the cut's distance on that side, and the kept upper bound keeps its
    own. The low-side clip (line 82) instead passes `(i.minDist,
    cut.minDist)`, copied from the high-side clip at line 78. This module
    gives the clip the split branch's arguments and proves that every bound
    then carries the distance of whoever supplied it. */
module RangeRemoveIntended {
  import opened ValueRange
  import opened RangeRemove

  /** Each bound of `y`, cut out of `i` by `cut`, either is a bound of `i`
      with `i`'s distance there, or is the near bound of the cut with the
      cut's distance there. */
  predicate BoundsKeepOrigin(y: Range, i: Range, cut: Range) {
    && ((y.min == i.min && y.minDist == i.minDist) || (y.min == cut.max && y.minDist == cut.maxDist))
    && ((y.max == i.max && y.maxDist == i.maxDist) || (y.max == cut.min && y.maxDist == cut.minDist))
  }

  /** One step of `remove` with the low-side clip corrected; every other
      branch is the code's. */
  function IntendedCutStep(i: Range, cut: Range): (a: CutAction)
    ensures a.Erase? <==> CutStep(i, cut).Erase?
    ensures a.Split? <==> CutStep(i, cut).Split?
    ensures a.Split? ==> a.pieces == Remainder(i, cut, i.maxDist)
    ensures a.Keep? ==> a.kept.min == CutStep(i, cut).kept.min && a.kept.max == CutStep(i, cut).kept.max
  {
    if i.min >= cut.min && i.max <= cut.max then Erase
    else if i.min <= cut.min && i.max >= cut.max then Split(Remainder(i, cut, i.maxDist))
    else if i.max >= cut.min && i.max <= cut.max then Keep(Range(i.min, cut.min, i.minDist, cut.minDist))
    else if i.min >= cut.min && i.min <= cut.max then Keep(Range(cut.max, i.max, cut.maxDist, i.maxDist))
    else Keep(i)
  }

  /** With the correction, every interval a step keeps or clips carries, at
      each bound, the distance of the side that supplied that bound. */
  lemma IntendedClipKeepsOrigins(i: Range, cut: Range)
    requires IntendedCutStep(i, cut).Keep?
    ensures BoundsKeepOrigin(IntendedCutStep(i, cut).kept, i, cut)
  {
  }

  /** With the correction, the pieces a split pushes are already final: on
      their revisit the clip leaves them exactly as pushed, and both carry
      the distances of their origins. */
  lemma IntendedPiecesAreFinal(i: Range, cut: Range)
    requires NonDegenerate(cut) && IntendedCutStep(i, cut).Split?
    ensures forall p :: p in IntendedCutStep(i, cut).pieces ==>
      IntendedCutStep(p, cut) == Keep(p) && BoundsKeepOrigin(p, i, cut)
  {
    var ps := IntendedCutStep(i, cut).pieces;
    forall p | p in ps
      ensures IntendedCutStep(p, cut) == Keep(p) && BoundsKeepOrigin(p, i, cut)
    {
      if p.max == cut.min {
        assert p == Range(i.min, cut.min, i.minDist, cut.minDist);
      } else {
        assert p == Range(cut.max, i.max, cut.maxDist, i.maxDist);
      }
    }
  }

  /** The code as written breaks this at the low-side clip: an interval
      `[5, 10]` with distances `(1, 2)`, cut by `[0, 6]` with distances
      `(3, 4)`, becomes `[6, 10]` with distances `(1, 3)`. Its kept upper
      bound `10` loses its distance `2`, and its new lower bound `6` carries
      `1`, the distance of the bound that was cut away, not the cut's `4`. */
  lemma AsWrittenClipLosesOrigins()
    ensures Remove([Range(5.0, 10.0, 1.0, 2.0)], Range(0.0, 6.0, 3.0, 4.0))
      == [Range(6.0, 10.0, 1.0, 3.0)]
    ensures !BoundsKeepOrigin(Range(6.0, 10.0, 1.0, 3.0), Range(5.0, 10.0, 1.0, 2.0), Range(0.0, 6.0, 3.0, 4.0))
    ensures IntendedCutStep(Range(5.0, 10.0, 1.0, 2.0), Range(0.0, 6.0, 3.0, 4.0))
      == Keep(Range(6.0, 10.0, 4.0, 2.0))
  {
    var i := Range(5.0, 10.0, 1.0, 2.0);
    var cut := Range(0.0, 6.0, 3.0, 4.0);
    RemoveIsSurvivorsThenRemainders([i], cut);
    assert CutStep(i, cut) == Keep(Range(6.0, 10.0, 1.0, 3.0));
    assert Survivors([i], cut) == [Range(6.0, 10.0, 1.0, 3.0)];
    assert Remainders([i], cut) == [];
  }
}
