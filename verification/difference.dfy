/** `CValueRangeList::operator-`: a fresh list built by adding every
    interval of this list, in order, and then removing every interval of the
    other list, in order. */
module RangeDifference {
  import opened ValueRange
  import opened RangeLists
  import opened RangeAdd
  import opened RangeRemove

  function Difference(a: seq<Range>, b: seq<Range>): (r: seq<Range>)
    requires forall c :: c in b ==> NonDegenerate(c)
    ensures WellFormedList(a) ==> Valid(r)
  {
    if WellFormedList(a) then
      AddAllKeepsValid([], a);
      RemoveAllKeepsValid(AddAll([], a), b);
      RemoveAll(AddAll([], a), b)
    else
      RemoveAll(AddAll([], a), b)
  }

  /** Set difference: a point is covered by `a - b` only if `a` covers it
      and no interval of `b` holds it strictly inside; it is covered if `a`
      covers it and it lies outside every closed interval of `b`. */
  lemma DifferenceCovers(a: seq<Range>, b: seq<Range>, x: real)
    requires forall c :: c in b ==> NonDegenerate(c)
    ensures Covers(Difference(a, b), x) ==> Covers(a, x) && forall c :: c in b ==> !(c.min < x < c.max)
    ensures Covers(a, x) && (forall c :: c in b ==> x < c.min || c.max < x) ==> Covers(Difference(a, b), x)
  {
    AddAllCovers([], a, x);
    RemoveAllCovers(AddAll([], a), b, x);
    assert !Covers([], x);
  }

  /** `a - []` is `a` itself when `a` is already a valid set. */
  lemma DifferenceOfNothing(a: seq<Range>)
    requires Valid(a)
    ensures Difference(a, []) == a
  {
    assert [] + a == a;
    AddAllOfValid([], a);
  }

  /** Removing, one by one, the intervals of a valid list from that list
      leaves nothing. */
  lemma {:induction false} RemoveAllOfItself(a: seq<Range>)
    requires Valid(a) && forall c :: c in a ==> NonDegenerate(c)
    ensures RemoveAll(a, a) == []
    decreases |a|
  {
    if |a| > 0 {
      HeadApart(a);
      RemoveHeadOfValid(a);
      RemoveAllOfItself(a[1..]);
      assert forall c :: c in a[1..] ==> c in a;
    }
  }

  /** Removing the head of a valid list erases it and leaves the rest. */
  lemma RemoveHeadOfValid(a: seq<Range>)
    requires Valid(a) && |a| > 0 && NonDegenerate(a[0])
    ensures Remove(a, a[0]) == a[1..]
  {
    var cut := a[0];
    HeadApart(a);
    forall i | i in a[1..]
      ensures CutStep(i, cut) == Keep(i)
    {
      assert Apart(cut, i);
    }
    assert CutStep(a[0], cut).Erase?;
    RemoveIsSurvivorsThenRemainders(a, cut);
    RemaindersOrigin(a, cut);
    SurvivorsOfUntouched(a[1..], cut);
    assert Survivors(a, cut) == Survivors(a[1..], cut);
  }

  /** Intervals the cut leaves alone all survive, in order. */
  lemma {:induction false} SurvivorsOfUntouched(q: seq<Range>, cut: Range)
    requires forall i :: i in q ==> CutStep(i, cut) == Keep(i)
    ensures Survivors(q, cut) == q
    decreases |q|
  {
    if |q| > 0 {
      assert CutStep(q[0], cut) == Keep(q[0]);
      assert forall i :: i in q[1..] ==> i in q;
      SurvivorsOfUntouched(q[1..], cut);
      assert q == [q[0]] + q[1..];
    }
  }

  /** `a - a` is empty for a valid set of intervals of positive length. */
  lemma DifferenceOfItself(a: seq<Range>)
    requires Valid(a) && forall c :: c in a ==> NonDegenerate(c)
    ensures Difference(a, a) == []
  {
    DifferenceOfNothing(a);
    assert [] + a == a;
    AddAllOfValid([], a);
    RemoveAllOfItself(a);
  }
}
