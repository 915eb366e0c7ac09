/** `CValueRangeList::remove`: subtraction of a cut `[cut.min, cut.max]`.
    The source walks the list: it erases intervals inside the cut, clips
    intervals overlapping one end of it in place, and for an interval
    containing the cut pushes up to two remainder pieces onto the back of
    the very list it is walking. Those pieces are visited again later in
    the same pass, where they hit a clip branch; that second visit decides
    their final boundary distances. Line numbers in the comments below
    refer to `CU_valuRange.h`. */
module RangeRemove {
  import opened ValueRange
  import opened RangeLists

  /** What one iteration of the loop in `remove` does with the interval `i`. */
  datatype CutAction =
    | Erase                     // `i` lies inside the cut
    | Split(pieces: seq<Range>) // `i` contains the cut: push the remainders, erase `i`
    | Keep(kept: Range)         // `i` stays, clipped if it overlaps one end of the cut

  /** The cut can be removed without the loop revisiting a piece forever. */
  predicate NonDegenerate(cut: Range) {
    cut.min < cut.max
  }

  /** The remainders of an interval `i` containing the cut: `[i.min,
      cut.min]` unless empty of length, and `[cut.max, i.max]` unless empty
      of length, the latter with maximum distance `upperMaxDist`. */
  function Remainder(i: Range, cut: Range, upperMaxDist: real): (r: seq<Range>)
    requires Inside(cut, i)
    ensures |r| <= 2
    ensures WellFormed(cut) ==> forall p :: p in r ==> Inside(p, i)
    ensures forall p, x :: p in r && Contains(p, x) ==> !(cut.min < x < cut.max)
    ensures forall x :: Contains(i, x) && x < cut.min ==> |r| > 0 && Contains(r[0], x)
    ensures forall x :: Contains(i, x) && cut.max < x ==> |r| > 0 && Contains(r[|r| - 1], x)
    ensures forall p :: p in r ==> p.min < p.max
    ensures forall p :: p in r ==>
      p == Range(i.min, cut.min, i.minDist, cut.minDist) || p == Range(cut.max, i.max, cut.maxDist, upperMaxDist)
  {
    var lower := Range(i.min, cut.min, i.minDist, cut.minDist);
    var upper := Range(cut.max, i.max, cut.maxDist, upperMaxDist);
    if i.min != cut.min && i.max != cut.max then [lower, upper]
    else if i.min != cut.min then [lower]
    else if i.max != cut.max then [upper]
    else []
  }

  function CutStep(i: Range, cut: Range): (a: CutAction)
    ensures a.Erase? ==> Inside(i, cut)
    ensures a.Split? ==> Inside(cut, i) && !Inside(i, cut)
    ensures Inside(i, cut) ==> a.Erase?
    ensures Inside(cut, i) && !Inside(i, cut) ==> a.Split?
    ensures a.Keep? ==> Inside(a.kept, i) && (WellFormed(i) ==> WellFormed(a.kept))
    ensures a.Keep? ==> forall x :: Contains(a.kept, x) ==> !(cut.min < x < cut.max)
    ensures a.Keep? ==> forall x :: Contains(i, x) && (x < cut.min || cut.max < x) ==> Contains(a.kept, x)
  {
    if i.min >= cut.min && i.max <= cut.max then Erase
    else if i.min <= cut.min && i.max >= cut.max then Split(Remainder(i, cut, i.maxDist))
    else if i.max >= cut.min && i.max <= cut.max then Keep(Range(i.min, cut.min, i.minDist, cut.minDist))
    else if i.min >= cut.min && i.min <= cut.max then Keep(Range(cut.max, i.max, i.minDist, cut.minDist))
    else Keep(i)
  }

  /** The number of queued intervals that will be split: it bounds how many
      times the loop can still grow its queue. */
  function SplitCount(q: seq<Range>, cut: Range): (n: nat)
    ensures n <= |q|
  {
    if |q| == 0 then 0
    else (if CutStep(q[0], cut).Split? then 1 else 0) + SplitCount(q[1..], cut)
  }

  lemma {:induction false} SplitCountAppend(a: seq<Range>, b: seq<Range>, cut: Range)
    ensures SplitCount(a + b, cut) == SplitCount(a, cut) + SplitCount(b, cut)
    decreases |a|
  {
    if |a| > 0 {
      assert (a + b)[0] == a[0] && (a + b)[1..] == a[1..] + b;
      SplitCountAppend(a[1..], b, cut);
    } else {
      assert a + b == b;
    }
  }

  /** The final form of the remainders of an interval containing the cut,
      after the loop has revisited them: the lower piece is clipped at line
      78 to itself; the upper piece, pushed at line 72 with distances
      (cut.maxDist, i.maxDist), is clipped at line 82 and ends with maxDist
      = cut.minDist. */
  function SplitRemainders(i: Range, cut: Range): (r: seq<Range>)
    requires NonDegenerate(cut) && Inside(cut, i)
    ensures Disjoint(r) && forall p :: p in r ==> WellFormed(p)
  {
    Remainder(i, cut, cut.minDist)
  }

  /** The value each revisited piece ends with. */
  function Settle(ps: seq<Range>, cut: Range): (r: seq<Range>)
    requires forall p :: p in ps ==> CutStep(p, cut).Keep?
    ensures |r| == |ps|
  {
    if |ps| == 0 then [] else [CutStep(ps[0], cut).kept] + Settle(ps[1..], cut)
  }

  lemma {:induction false} SettleAppend(a: seq<Range>, b: seq<Range>, cut: Range)
    requires forall p :: p in a + b ==> CutStep(p, cut).Keep?
    ensures Settle(a + b, cut) == Settle(a, cut) + Settle(b, cut)
    decreases |a|
  {
    if |a| > 0 {
      assert (a + b)[0] == a[0] && (a + b)[1..] == a[1..] + b;
      SettleAppend(a[1..], b, cut);
    } else {
      assert a + b == b;
    }
  }

  /** The second visit: with a non-degenerate cut, the pieces pushed for an
      interval containing the cut are never split again, only clipped, and
      they settle to `SplitRemainders`. */
  lemma PiecesSettle(i: Range, cut: Range)
    requires NonDegenerate(cut) && CutStep(i, cut).Split?
    ensures forall p :: p in CutStep(i, cut).pieces ==> CutStep(p, cut).Keep?
    ensures SplitCount(CutStep(i, cut).pieces, cut) == 0
    ensures Settle(CutStep(i, cut).pieces, cut) == SplitRemainders(i, cut)
  {
    var ps := CutStep(i, cut).pieces;
    if |ps| > 0 {
      assert ps[1..] == [] || ps[1..][1..] == [];
    }
  }

  /** The loop of `CU_valuRange.h` lines 61-88 as a worklist: `done` holds the intervals the
      iterator has passed, `queue` those from the iterator to `end()`,
      including pieces pushed during this pass. */
  function RemoveLoop(done: seq<Range>, queue: seq<Range>, cut: Range): (r: seq<Range>)
    requires NonDegenerate(cut)
    ensures |done| <= |r| <= |done| + |queue| + SplitCount(queue, cut)
    ensures r[..|done|] == done
    decreases SplitCount(queue, cut), |queue|
  {
    if |queue| == 0 then done
    else
      match CutStep(queue[0], cut)
      case Erase => RemoveLoop(done, queue[1..], cut)
      case Keep(y) => RemoveLoop(done + [y], queue[1..], cut)
      case Split(ps) =>
        PiecesSettle(queue[0], cut);
        SplitCountAppend(queue[1..], ps, cut);
        RemoveLoop(done, queue[1..] + ps, cut)
  }

  function Remove(l: seq<Range>, cut: Range): (r: seq<Range>)
    requires NonDegenerate(cut)
    ensures |r| <= 2 * |l|
    ensures forall y :: y in r ==> exists i :: i in l && Inside(y, i)
  {
    assert l + [] == l;
    RemoveLoopSpec([], l, [], cut);
    SurvivorsOrigin(l, cut);
    RemaindersOrigin(l, cut);
    RemoveLoop([], l, cut)
  }

  /** The intervals that stay in place (possibly clipped), in order. */
  function Survivors(l: seq<Range>, cut: Range): (r: seq<Range>)
    ensures |r| <= |l|
  {
    if |l| == 0 then []
    else
      (match CutStep(l[0], cut) case Keep(y) => [y] case _ => [])
        + Survivors(l[1..], cut)
  }

  /** The settled remainders of every split interval, in order. */
  function Remainders(l: seq<Range>, cut: Range): (r: seq<Range>)
    requires NonDegenerate(cut)
    ensures |r| <= 2 * |l|
  {
    if |l| == 0 then []
    else
      (if CutStep(l[0], cut).Split? then SplitRemainders(l[0], cut) else [])
        + Remainders(l[1..], cut)
  }

  /** Each survivor is the kept form of an interval of the list, and every
      kept form is a survivor. */
  lemma {:induction false} SurvivorsOrigin(l: seq<Range>, cut: Range)
    ensures forall y :: y in Survivors(l, cut) ==> exists i :: i in l && CutStep(i, cut) == Keep(y)
    ensures forall i :: i in l && CutStep(i, cut).Keep? ==> CutStep(i, cut).kept in Survivors(l, cut)
    decreases |l|
  {
    if |l| > 0 {
      SurvivorsOrigin(l[1..], cut);
      assert l == [l[0]] + l[1..];
    }
  }

  /** Each remainder comes from a split interval of the list, and all the
      remainders of every split interval are there. */
  lemma {:induction false} RemaindersOrigin(l: seq<Range>, cut: Range)
    requires NonDegenerate(cut)
    ensures forall y :: y in Remainders(l, cut) ==>
      exists i :: i in l && CutStep(i, cut).Split? && y in SplitRemainders(i, cut)
    ensures forall i, y :: i in l && CutStep(i, cut).Split? && y in SplitRemainders(i, cut) ==>
      y in Remainders(l, cut)
    ensures (forall i :: i in l ==> !CutStep(i, cut).Split?) ==> Remainders(l, cut) == []
    decreases |l|
  {
    if |l| > 0 {
      RemaindersOrigin(l[1..], cut);
      assert l == [l[0]] + l[1..];
    }
  }

  lemma {:induction false} SettleLoop(done: seq<Range>, ps: seq<Range>, cut: Range)
    requires NonDegenerate(cut)
    requires forall p :: p in ps ==> CutStep(p, cut).Keep?
    ensures RemoveLoop(done, ps, cut) == done + Settle(ps, cut)
    decreases |ps|
  {
    if |ps| > 0 {
      SettleLoop(done + [CutStep(ps[0], cut).kept], ps[1..], cut);
    }
  }

  /** One iteration of the loop, by the action taken on the head. */
  lemma LoopHead(done: seq<Range>, x: Range, tail: seq<Range>, cut: Range)
    requires NonDegenerate(cut)
    ensures CutStep(x, cut).Erase? ==> RemoveLoop(done, [x] + tail, cut) == RemoveLoop(done, tail, cut)
    ensures CutStep(x, cut).Keep? ==>
      RemoveLoop(done, [x] + tail, cut) == RemoveLoop(done + [CutStep(x, cut).kept], tail, cut)
    ensures CutStep(x, cut).Split? ==>
      RemoveLoop(done, [x] + tail, cut) == RemoveLoop(done, tail + CutStep(x, cut).pieces, cut)
  {
    assert ([x] + tail)[0] == x && ([x] + tail)[1..] == tail;
  }

  lemma {:induction false} RemoveLoopSpec(done: seq<Range>, a: seq<Range>, ps: seq<Range>, cut: Range)
    requires NonDegenerate(cut)
    requires forall p :: p in ps ==> CutStep(p, cut).Keep?
    ensures RemoveLoop(done, a + ps, cut) == done + Survivors(a, cut) + Settle(ps, cut) + Remainders(a, cut)
    decreases |a|
  {
    if |a| == 0 {
      assert a + ps == ps;
      SettleLoop(done, ps, cut);
    } else {
      var x := a[0];
      var rest := a[1..];
      assert a + ps == [x] + (rest + ps);
      LoopHead(done, x, rest + ps, cut);
      match CutStep(x, cut)
      case Erase =>
        RemoveLoopSpec(done, rest, ps, cut);
        SpecErase(done, a, ps, cut);
      case Keep(y) =>
        RemoveLoopSpec(done + [y], rest, ps, cut);
        SpecKeep(done, a, ps, cut);
      case Split(qs) =>
        PiecesSettle(x, cut);
        assert rest + ps + qs == rest + (ps + qs);
        RemoveLoopSpec(done, rest, ps + qs, cut);
        SettleAppend(ps, qs, cut);
        SpecSplit(done, a, ps, cut);
    }
  }

  lemma SpecErase(done: seq<Range>, a: seq<Range>, ps: seq<Range>, cut: Range)
    requires NonDegenerate(cut) && |a| > 0 && CutStep(a[0], cut).Erase?
    requires forall p :: p in ps ==> CutStep(p, cut).Keep?
    ensures done + Survivors(a[1..], cut) + Settle(ps, cut) + Remainders(a[1..], cut)
      == done + Survivors(a, cut) + Settle(ps, cut) + Remainders(a, cut)
  {
    assert Survivors(a, cut) == Survivors(a[1..], cut);
    assert Remainders(a, cut) == Remainders(a[1..], cut);
  }

  lemma SpecKeep(done: seq<Range>, a: seq<Range>, ps: seq<Range>, cut: Range)
    requires NonDegenerate(cut) && |a| > 0 && CutStep(a[0], cut).Keep?
    requires forall p :: p in ps ==> CutStep(p, cut).Keep?
    ensures done + [CutStep(a[0], cut).kept] + Survivors(a[1..], cut) + Settle(ps, cut) + Remainders(a[1..], cut)
      == done + Survivors(a, cut) + Settle(ps, cut) + Remainders(a, cut)
  {
    var y := CutStep(a[0], cut).kept;
    var sv := Survivors(a[1..], cut);
    assert Survivors(a, cut) == [y] + sv;
    assert Remainders(a, cut) == Remainders(a[1..], cut);
    assert done + [y] + sv == done + ([y] + sv);
  }

  lemma SpecSplit(done: seq<Range>, a: seq<Range>, ps: seq<Range>, cut: Range)
    requires NonDegenerate(cut) && |a| > 0 && CutStep(a[0], cut).Split?
    requires forall p :: p in ps ==> CutStep(p, cut).Keep?
    requires forall p :: p in CutStep(a[0], cut).pieces ==> CutStep(p, cut).Keep?
    requires Settle(CutStep(a[0], cut).pieces, cut) == SplitRemainders(a[0], cut)
    ensures done + Survivors(a[1..], cut) + (Settle(ps, cut) + Settle(CutStep(a[0], cut).pieces, cut)) + Remainders(a[1..], cut)
      == done + Survivors(a, cut) + Settle(ps, cut) + Remainders(a, cut)
  {
    var sv := Survivors(a[1..], cut);
    var rm := Remainders(a[1..], cut);
    var qs := Settle(CutStep(a[0], cut).pieces, cut);
    assert Survivors(a, cut) == sv;
    assert Remainders(a, cut) == qs + rm;
    assert done + sv + (Settle(ps, cut) + qs) + rm == done + sv + Settle(ps, cut) + (qs + rm);
  }

  /** The worklist loop, with its revisits, equals the per-interval
      reference: the kept (possibly clipped) intervals in their order,
      followed by the settled remainders of every split interval. */
  lemma RemoveIsSurvivorsThenRemainders(l: seq<Range>, cut: Range)
    requires NonDegenerate(cut)
    ensures Remove(l, cut) == Survivors(l, cut) + Remainders(l, cut)
  {
    assert l + [] == l;
    RemoveLoopSpec([], l, [], cut);
  }

  /** Subtraction: nothing strictly inside the cut stays covered, every old
      point outside the closed cut stays covered, and nothing new appears. */
  lemma RemoveCovers(l: seq<Range>, cut: Range)
    requires NonDegenerate(cut)
    ensures forall x :: Covers(Remove(l, cut), x) ==> Covers(l, x) && !(cut.min < x < cut.max)
    ensures forall x :: Covers(l, x) && (x < cut.min || cut.max < x) ==> Covers(Remove(l, cut), x)
  {
    RemoveIsSurvivorsThenRemainders(l, cut);
    SurvivorsOrigin(l, cut);
    RemaindersOrigin(l, cut);
    var r := Remove(l, cut);
    forall x | Covers(r, x)
      ensures Covers(l, x) && !(cut.min < x < cut.max)
    {
      var y :| y in r && Contains(y, x);
      if y in Survivors(l, cut) {
        var i :| i in l && CutStep(i, cut) == Keep(y);
      } else {
        var i :| i in l && CutStep(i, cut).Split? && y in SplitRemainders(i, cut);
      }
    }
    forall x | Covers(l, x) && (x < cut.min || cut.max < x)
      ensures Covers(r, x)
    {
      var i :| i in l && Contains(i, x);
      match CutStep(i, cut)
      case Erase =>
      case Keep(y) =>
        assert y in Survivors(l, cut);
      case Split(_) =>
        var rs := SplitRemainders(i, cut);
        var p := if x < cut.min then rs[0] else rs[|rs| - 1];
        assert p in rs && Contains(p, x);
        assert p in Remainders(l, cut);
    }
  }

  lemma {:induction false} SurvivorsValid(l: seq<Range>, cut: Range)
    requires Valid(l)
    ensures Valid(Survivors(l, cut))
    decreases |l|
  {
    if |l| > 0 {
      HeadApart(l);
      SurvivorsValid(l[1..], cut);
      SurvivorsOrigin(l[1..], cut);
      if CutStep(l[0], cut).Keep? {
        var y := CutStep(l[0], cut).kept;
        forall z | z in Survivors(l[1..], cut)
          ensures Apart(y, z)
        {
          var w :| w in l[1..] && CutStep(w, cut) == Keep(z);
          InsideApart(y, l[0], z, w);
        }
        DisjointConcat([y], Survivors(l[1..], cut));
      } else {
        assert Survivors(l, cut) == Survivors(l[1..], cut);
      }
    }
  }

  lemma {:induction false} RemaindersValid(l: seq<Range>, cut: Range)
    requires NonDegenerate(cut) && Valid(l)
    ensures Valid(Remainders(l, cut))
    decreases |l|
  {
    if |l| > 0 {
      HeadApart(l);
      RemaindersValid(l[1..], cut);
      RemaindersOrigin(l[1..], cut);
      if CutStep(l[0], cut).Split? {
        // two intervals of a valid list cannot both contain the cut
        forall w | w in l[1..]
          ensures !CutStep(w, cut).Split?
        {
          assert Apart(l[0], w);
        }
        assert Remainders(l, cut) == SplitRemainders(l[0], cut) + [];
      } else {
        assert Remainders(l, cut) == Remainders(l[1..], cut);
      }
    }
  }

  /** `remove` keeps the list well formed and disjoint. */
  lemma RemoveKeepsValid(l: seq<Range>, cut: Range)
    requires NonDegenerate(cut) && Valid(l)
    ensures Valid(Remove(l, cut))
  {
    RemoveIsSurvivorsThenRemainders(l, cut);
    SurvivorsOrigin(l, cut);
    RemaindersOrigin(l, cut);
    SurvivorsValid(l, cut);
    RemaindersValid(l, cut);
    forall y, z | y in Survivors(l, cut) && z in Remainders(l, cut)
      ensures Apart(y, z)
    {
      var i :| i in l && CutStep(i, cut) == Keep(y);
      var w :| w in l && CutStep(w, cut).Split? && z in SplitRemainders(w, cut);
      ApartOfDistinct(l, i, w);
      InsideApart(y, i, z, w);
    }
    DisjointConcat(Survivors(l, cut), Remainders(l, cut));
  }

  /** Where each interval left by `remove` comes from, with the boundary
      distances in the source's argument order. */
  predicate FromCut(y: Range, l: seq<Range>, cut: Range) {
    // untouched
    || (y in l && Apart(y, cut))
    // clipped at line 78, or the lower piece pushed at line 69
    || (exists i :: i in l && i.min < cut.min <= i.max && y == Range(i.min, cut.min, i.minDist, cut.minDist))
    // clipped at line 82
    || (exists i :: i in l && cut.min <= i.min <= cut.max < i.max && y == Range(cut.max, i.max, i.minDist, cut.minDist))
    // the upper piece pushed at line 72, then clipped at line 82 on its second visit
    || (exists i :: i in l && i.min <= cut.min && cut.max < i.max && y == Range(cut.max, i.max, cut.maxDist, cut.minDist))
  }

  lemma KeptFromCut(i: Range, l: seq<Range>, cut: Range)
    requires NonDegenerate(cut) && i in l && WellFormed(i) && CutStep(i, cut).Keep?
    ensures FromCut(CutStep(i, cut).kept, l, cut)
  {
  }

  lemma RemainderFromCut(i: Range, l: seq<Range>, cut: Range, y: Range)
    requires NonDegenerate(cut) && i in l && CutStep(i, cut).Split? && y in SplitRemainders(i, cut)
    ensures FromCut(y, l, cut)
  {
    var lower := Range(i.min, cut.min, i.minDist, cut.minDist);
    var upper := Range(cut.max, i.max, cut.maxDist, cut.minDist);
    assert y == lower || y == upper;
    if y == lower {
      assert i.min < cut.min <= i.max;
    } else {
      assert i.min <= cut.min && cut.max < i.max;
    }
  }

  lemma RemoveDistances(l: seq<Range>, cut: Range)
    requires NonDegenerate(cut) && WellFormedList(l)
    ensures forall y :: y in Remove(l, cut) ==> FromCut(y, l, cut)
  {
    RemoveIsSurvivorsThenRemainders(l, cut);
    SurvivorsOrigin(l, cut);
    RemaindersOrigin(l, cut);
    forall y | y in Remove(l, cut)
      ensures FromCut(y, l, cut)
    {
      if y in Survivors(l, cut) {
        var i :| i in l && CutStep(i, cut) == Keep(y);
        KeptFromCut(i, l, cut);
      } else {
        var i :| i in l && CutStep(i, cut).Split? && y in SplitRemainders(i, cut);
        RemainderFromCut(i, l, cut, y);
      }
    }
  }

  /** Why the cut must be non-degenerate: with `cut.min == cut.max` inside
      any interval other than `[c, c]`, one pushed piece is, on its revisit,
      split again into itself, so the loop never reaches `end()`. Above the
      interval's lower end that piece is the lower one pushed at line 69; at
      the lower end it is the upper one pushed at line 72. */
  lemma DegenerateCutRepeats(i: Range, cut: Range)
    requires cut.min == cut.max && i.min <= cut.min <= i.max && i.min < i.max
    ensures CutStep(i, cut).Split?
    ensures exists p :: p in CutStep(i, cut).pieces && CutStep(p, cut) == Split([p])
    ensures i.min < cut.min ==>
      var p := Range(i.min, cut.min, i.minDist, cut.minDist);
      p in CutStep(i, cut).pieces && CutStep(p, cut) == Split([p])
    ensures i.min == cut.min ==>
      var p := Range(cut.max, i.max, cut.maxDist, i.maxDist);
      CutStep(i, cut).pieces == [p] && CutStep(p, cut) == Split([p])
  {
    if i.min < cut.min {
      var p := Range(i.min, cut.min, i.minDist, cut.minDist);
      assert p == CutStep(i, cut).pieces[0];
      assert CutStep(p, cut) == Split([p]);
    } else {
      var p := Range(cut.max, i.max, cut.maxDist, i.maxDist);
      assert CutStep(i, cut).pieces == [p];
      assert CutStep(p, cut) == Split([p]);
    }
  }

  /** An inverted cut (`cut.max < cut.min`) diverges too: an interval
      satisfying the split condition of line 66 pushes a piece that, on its
      revisit, splits again and pushes itself once more. The piece is the
      lower one when `i.min != cut.min`, else the upper one. */
  lemma InvertedCutRepeats(i: Range, cut: Range)
    requires cut.max < cut.min && WellFormed(i) && i.min <= cut.min && cut.max <= i.max
    ensures CutStep(i, cut).Split?
    ensures exists p :: p in CutStep(i, cut).pieces && CutStep(p, cut).Split? && p in CutStep(p, cut).pieces
  {
    if i.min != cut.min {
      var p := Range(i.min, cut.min, i.minDist, cut.minDist);
      assert p == CutStep(i, cut).pieces[0];
      assert p == CutStep(p, cut).pieces[0];
    } else {
      var p := Range(cut.max, i.max, cut.maxDist, i.maxDist);
      assert CutStep(i, cut).pieces == [p];
      assert p == CutStep(p, cut).pieces[|CutStep(p, cut).pieces| - 1];
    }
  }

  /** `remove` applied to each cut in turn. */
  function RemoveAll(l: seq<Range>, cuts: seq<Range>): (r: seq<Range>)
    requires forall c :: c in cuts ==> NonDegenerate(c)
    ensures forall y :: y in r ==> exists i :: i in l && Inside(y, i)
    decreases |cuts|
  {
    if |cuts| == 0 then l else RemoveAll(Remove(l, cuts[0]), cuts[1..])
  }

  lemma {:induction false} RemoveAllCovers(l: seq<Range>, cuts: seq<Range>, x: real)
    requires forall c :: c in cuts ==> NonDegenerate(c)
    ensures Covers(RemoveAll(l, cuts), x) ==>
      Covers(l, x) && forall c :: c in cuts ==> !(c.min < x < c.max)
    ensures Covers(l, x) && (forall c :: c in cuts ==> x < c.min || c.max < x) ==>
      Covers(RemoveAll(l, cuts), x)
    decreases |cuts|
  {
    if |cuts| > 0 {
      RemoveCovers(l, cuts[0]);
      RemoveAllCovers(Remove(l, cuts[0]), cuts[1..], x);
      assert cuts == [cuts[0]] + cuts[1..];
    }
  }

  lemma {:induction false} RemoveAllKeepsValid(l: seq<Range>, cuts: seq<Range>)
    requires (forall c :: c in cuts ==> NonDegenerate(c)) && Valid(l)
    ensures Valid(RemoveAll(l, cuts))
    decreases |cuts|
  {
    if |cuts| > 0 {
      RemoveKeepsValid(l, cuts[0]);
      RemoveAllKeepsValid(Remove(l, cuts[0]), cuts[1..]);
    }
  }
}
