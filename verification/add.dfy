/** `CValueRangeList::add`: union with merge. The source walks the list,
    erasing every stored interval the (growing) range absorbs or merges
    with, and appends the range at the end; if the range already lies
    inside a stored interval it returns early without appending. */
module RangeAdd {
  import opened ValueRange
  import opened RangeLists

  /** What one iteration of the scan in `add` does with the stored interval
      `i`, given the range `cur` being inserted (as merged so far). */
  datatype AddAction =
    | Absorb                  // `i` lies inside `cur`: erase it
    | Stop                    // `cur` lies inside `i`: return without appending
    | Extend(merged: Range)   // they overlap: erase `i`, continue with the union
    | Pass                    // they do not meet: keep `i`

  function AddStep(i: Range, cur: Range): (a: AddAction)
    ensures a.Absorb? ==> Inside(i, cur)
    ensures a.Stop? ==> Inside(cur, i) && (i.min < cur.min || cur.max < i.max)
    ensures a.Extend? ==> Meets(i, cur) && Inside(i, a.merged) && Inside(cur, a.merged)
    ensures a.Extend? ==> forall x :: Contains(a.merged, x) <==> Contains(i, x) || Contains(cur, x)
    // each bound of the merged range comes, with its distance, from the side that supplied it
    ensures a.Extend? ==>
      || (i.min < cur.min && a.merged == Range(i.min, cur.max, i.minDist, cur.maxDist))
      || (cur.max < i.max && a.merged == Range(cur.min, i.max, cur.minDist, i.maxDist))
    ensures WellFormed(i) && WellFormed(cur) ==> (a.Pass? <==> Apart(i, cur))
    ensures Inside(i, cur) ==> a.Absorb?
    ensures Inside(cur, i) && !Inside(i, cur) ==> a.Stop?
  {
    if i.min >= cur.min && i.max <= cur.max then Absorb
    else if i.min <= cur.min && i.max >= cur.max then Stop
    else if i.max <= cur.max && i.max >= cur.min then Extend(Range(i.min, cur.max, i.minDist, cur.maxDist))
    else if i.min >= cur.min && i.min <= cur.max then Extend(Range(cur.min, i.max, cur.minDist, i.maxDist))
    else Pass
  }

  /** The loop of `CU_valuRange.h` lines 34-57: `kept` holds the stored intervals already
      passed, `rest` those not yet visited, `cur` the range as merged so far. */
  function AddScan(kept: seq<Range>, rest: seq<Range>, cur: Range): (r: seq<Range>)
    ensures |kept| <= |r| <= |kept| + |rest| + 1
    ensures r[..|kept|] == kept
    decreases |rest|
  {
    if |rest| == 0 then kept + [cur]
    else
      match AddStep(rest[0], cur)
      case Absorb => AddScan(kept, rest[1..], cur)
      case Stop => kept + rest
      case Extend(m) => AddScan(kept, rest[1..], m)
      case Pass => AddScan(kept + [rest[0]], rest[1..], cur)
  }

  function Add(l: seq<Range>, range: Range): (r: seq<Range>)
    ensures |r| <= |l| + 1
  {
    AddScan([], l, range)
  }

  /** `add` applied to each range in turn. */
  function AddAll(l: seq<Range>, rs: seq<Range>): (r: seq<Range>)
    ensures |r| <= |l| + |rs|
    decreases |rs|
  {
    if |rs| == 0 then l else AddAll(Add(l, rs[0]), rs[1..])
  }

  /** The stored intervals that do not meet `range`, in their order. */
  function Outside(l: seq<Range>, range: Range): (r: seq<Range>)
    ensures forall y :: y in r <==> y in l && !Meets(y, range)
    ensures |r| <= |l|
  {
    if |l| == 0 then []
    else if Meets(l[0], range) then Outside(l[1..], range)
    else [l[0]] + Outside(l[1..], range)
  }

  function Last(s: seq<Range>): Range
    requires |s| > 0
  {
    s[|s| - 1]
  }

  /** The lower bound of `m` is that of `r0`, with its distance, or that of a
      stored interval meeting `r0` from below, with that interval's distance. */
  predicate LowOrigin(m: Range, r0: Range, l: seq<Range>) {
    || (m.min == r0.min && m.minDist == r0.minDist)
    || exists i :: i in l && Meets(i, r0) && i.min < r0.min && m.min == i.min && m.minDist == i.minDist
  }

  predicate HighOrigin(m: Range, r0: Range, l: seq<Range>) {
    || (m.max == r0.max && m.maxDist == r0.maxDist)
    || exists i :: i in l && Meets(i, r0) && r0.max < i.max && m.max == i.max && m.maxDist == i.maxDist
  }

  /** `m` is the range `add` appends: it spans `r0` and every stored interval
      meeting `r0`, and each of its bounds comes from one of them. */
  predicate MergedHull(m: Range, r0: Range, l: seq<Range>) {
    && Inside(r0, m)
    && (forall i :: i in l && Meets(i, r0) ==> Inside(i, m))
    && LowOrigin(m, r0, l)
    && HighOrigin(m, r0, l)
  }

  /** The scan keeps the union: what is covered afterwards is what was
      covered before plus the range being inserted. */
  lemma {:induction false} AddScanCovers(kept: seq<Range>, rest: seq<Range>, cur: Range, x: real)
    ensures Covers(AddScan(kept, rest, cur), x) <==> Covers(kept, x) || Covers(rest, x) || Contains(cur, x)
    decreases |rest|
  {
    if |rest| > 0 {
      assert rest == [rest[0]] + rest[1..];
      assert Covers(rest, x) <==> Contains(rest[0], x) || Covers(rest[1..], x);
      match AddStep(rest[0], cur)
      case Absorb => AddScanCovers(kept, rest[1..], cur, x);
      case Stop => assert Covers(kept + rest, x) <==> Covers(kept, x) || Covers(rest, x);
      case Extend(m) => AddScanCovers(kept, rest[1..], m, x);
      case Pass =>
        AddScanCovers(kept + [rest[0]], rest[1..], cur, x);
        assert Covers(kept + [rest[0]], x) <==> Covers(kept, x) || Contains(rest[0], x);
    } else {
      assert Covers(kept + [cur], x) <==> Covers(kept, x) || Contains(cur, x);
    }
  }

  /** Union: after `add`, a point is covered iff it was covered or lies in
      the added range. Holds for any list. */
  lemma AddCovers(l: seq<Range>, range: Range)
    ensures forall x :: Covers(Add(l, range), x) <==> Covers(l, x) || Contains(range, x)
  {
    forall x
      ensures Covers(Add(l, range), x) <==> Covers(l, x) || Contains(range, x)
    {
      AddScanCovers([], l, range, x);
    }
  }

  lemma {:induction false} AddScanValid(kept: seq<Range>, rest: seq<Range>, cur: Range)
    requires Valid(kept + rest) && WellFormed(cur)
    requires forall k :: k in kept ==> Apart(k, cur)
    ensures Valid(AddScan(kept, rest, cur))
    decreases |rest|
  {
    if |rest| == 0 {
      assert kept + rest == kept;
      DisjointConcat(kept, [cur]);
    } else {
      var x := rest[0];
      assert kept + rest == kept + [x] + rest[1..];
      assert x in kept + rest;
      match AddStep(x, cur)
      case Absorb =>
        DisjointWithout(kept, x, rest[1..]);
        AddScanValid(kept, rest[1..], cur);
      case Stop =>
      case Extend(m) =>
        DisjointWithout(kept, x, rest[1..]);
        forall k | k in kept
          ensures Apart(k, m)
        {
          assert k in kept + rest;
          ApartOfDistinct(kept + rest, k, x);
        }
        AddScanValid(kept, rest[1..], m);
      case Pass =>
        assert kept + rest == (kept + [x]) + rest[1..];
        AddScanValid(kept + [x], rest[1..], cur);
    }
  }

  /** `add` of a well-formed range keeps the list well formed and disjoint. */
  lemma AddKeepsValid(l: seq<Range>, range: Range)
    requires Valid(l) && WellFormed(range)
    ensures Valid(Add(l, range))
  {
    assert [] + l == l;
    AddScanValid([], l, range);
  }

  lemma {:induction false} AddScanEnclosed(kept: seq<Range>, rest: seq<Range>, cur: Range)
    requires exists i :: i in rest && AddStep(i, cur).Stop?
    requires forall i :: i in rest ==> AddStep(i, cur).Stop? || AddStep(i, cur).Pass?
    ensures AddScan(kept, rest, cur) == kept + rest
    decreases |rest|
  {
    var x := rest[0];
    if AddStep(x, cur).Pass? {
      var e :| e in rest && AddStep(e, cur).Stop?;
      assert e in rest[1..] by { assert rest == [x] + rest[1..]; }
      AddScanEnclosed(kept + [x], rest[1..], cur);
      assert kept + [x] + rest[1..] == kept + rest;
    }
  }

  /** Early return: adding a range that lies inside a stored interval (and is
      not that interval's own bounds) leaves a disjoint list unchanged. */
  lemma AddEnclosedIsNoOp(l: seq<Range>, range: Range)
    requires Valid(l) && WellFormed(range)
    requires exists i :: i in l && Inside(range, i) && (i.min < range.min || range.max < i.max)
    ensures Add(l, range) == l
  {
    var e :| e in l && Inside(range, e) && (e.min < range.min || range.max < e.max);
    assert AddStep(e, range).Stop?;
    forall i | i in l
      ensures AddStep(i, range).Stop? || AddStep(i, range).Pass?
    {
      if i != e {
        ApartOfDistinct(l, i, e);
      }
    }
    AddScanEnclosed([], l, range);
  }

  /** What the scan of `add` maintains, on a disjoint list, while it merges
      the range `r0` into `cur` (no early return happening). */
  predicate MergeInvariant(rest: seq<Range>, cur: Range, r0: Range, l: seq<Range>) {
    && Valid(rest) && WellFormed(cur) && WellFormed(r0)
    && (forall i :: i in rest ==> i in l)
    && Inside(r0, cur)
    && (forall i :: i in rest ==> (Meets(i, cur) ==> Meets(i, r0)))
    && (forall i :: i in rest ==> !AddStep(i, cur).Stop?)
    && (forall i :: i in l && Meets(i, r0) ==> Inside(i, cur) || i in rest)
    && LowOrigin(cur, r0, l) && HighOrigin(cur, r0, l)
  }

  lemma MergeStep(rest: seq<Range>, cur: Range, r0: Range, l: seq<Range>)
    requires MergeInvariant(rest, cur, r0, l) && |rest| > 0
    ensures AddStep(rest[0], cur).Absorb? ==> MergeInvariant(rest[1..], cur, r0, l) && Meets(rest[0], r0)
    ensures AddStep(rest[0], cur).Extend? ==> MergeInvariant(rest[1..], AddStep(rest[0], cur).merged, r0, l) && Meets(rest[0], r0)
    ensures AddStep(rest[0], cur).Pass? ==> MergeInvariant(rest[1..], cur, r0, l) && !Meets(rest[0], r0)
  {
    var x := rest[0];
    HeadApart(rest);
    assert rest == [x] + rest[1..];
    assert x in l;
    match AddStep(x, cur)
    case Absorb =>
    case Stop =>
    case Extend(m) =>
      forall j | j in rest[1..]
        ensures (Meets(j, m) ==> Meets(j, r0)) && !AddStep(j, m).Stop?
      {
        assert Apart(x, j);
      }
      assert LowOrigin(m, r0, l) && HighOrigin(m, r0, l);
    case Pass =>
  }

  lemma {:induction false} AddScanMerges(kept: seq<Range>, rest: seq<Range>, cur: Range, r0: Range, l: seq<Range>)
    requires MergeInvariant(rest, cur, r0, l)
    ensures |AddScan(kept, rest, cur)| == |kept| + |Outside(rest, r0)| + 1
    ensures AddScan(kept, rest, cur) == kept + Outside(rest, r0) + [Last(AddScan(kept, rest, cur))]
    ensures MergedHull(Last(AddScan(kept, rest, cur)), r0, l)
    decreases |rest|
  {
    if |rest| == 0 {
      assert AddScan(kept, rest, cur) == kept + [cur];
    } else {
      var x := rest[0];
      MergeStep(rest, cur, r0, l);
      if AddStep(x, cur).Pass? {
        ScanPastKept(kept, rest, cur);
        AddScanMerges(kept + [x], rest[1..], cur, r0, l);
        MergesPastKept(kept, rest, AddScan(kept + [x], rest[1..], cur), r0);
      } else {
        var next := if AddStep(x, cur).Absorb? then cur else AddStep(x, cur).merged;
        ScanThroughErased(kept, rest, cur, next);
        AddScanMerges(kept, rest[1..], next, r0, l);
        assert Outside(rest, r0) == Outside(rest[1..], r0);
      }
    }
  }

  /** One unfolding of `AddScan` past an interval it keeps. */
  lemma ScanPastKept(kept: seq<Range>, rest: seq<Range>, cur: Range)
    requires |rest| > 0 && AddStep(rest[0], cur).Pass?
    ensures AddScan(kept, rest, cur) == AddScan(kept + [rest[0]], rest[1..], cur)
  {
  }

  /** One unfolding of `AddScan` past an interval it erases, continuing with
      `next`, the range as absorbed or extended. */
  lemma ScanThroughErased(kept: seq<Range>, rest: seq<Range>, cur: Range, next: Range)
    requires |rest| > 0
    requires AddStep(rest[0], cur).Absorb? || AddStep(rest[0], cur).Extend?
    requires next == if AddStep(rest[0], cur).Absorb? then cur else AddStep(rest[0], cur).merged
    ensures AddScan(kept, rest, cur) == AddScan(kept, rest[1..], next)
  {
  }

  /** The inductive step of `AddScanMerges` past an interval it keeps: the
      result `r` of the rest of the scan, which begins with the interval kept,
      has the shape the lemma states for the whole scan. */
  lemma MergesPastKept(kept: seq<Range>, rest: seq<Range>, r: seq<Range>, r0: Range)
    requires |rest| > 0 && !Meets(rest[0], r0) && |r| > 0
    requires |r| == |kept| + 1 + |Outside(rest[1..], r0)| + 1
    requires r == kept + [rest[0]] + Outside(rest[1..], r0) + [Last(r)]
    ensures |r| == |kept| + |Outside(rest, r0)| + 1
    ensures r == kept + Outside(rest, r0) + [Last(r)]
  {
    var x, tail := rest[0], Outside(rest[1..], r0);
    assert Outside(rest, r0) == [x] + tail;
    ConsAssoc(kept, x, tail, Last(r));
  }

  lemma ConsAssoc(a: seq<Range>, x: Range, t: seq<Range>, y: Range)
    ensures a + [x] + t + [y] == a + ([x] + t) + [y]
  {
  }

  /** The scan of `add` starts in `MergeInvariant` when no stored interval
      strictly encloses the range. */
  lemma MergeStart(l: seq<Range>, range: Range)
    requires Valid(l) && WellFormed(range)
    requires !exists i :: i in l && Inside(range, i) && (i.min < range.min || range.max < i.max)
    ensures MergeInvariant(l, range, range, l)
  {
    forall i | i in l
      ensures !AddStep(i, range).Stop?
    {
    }
  }

  /** Merge: when no stored interval strictly encloses the range, `add` on a
      disjoint list keeps the intervals not meeting the range, unchanged and
      in order, and appends one merged range spanning the range and every
      interval it meets, each bound carrying the distance of its source. */
  lemma AddMerges(l: seq<Range>, range: Range)
    requires Valid(l) && WellFormed(range)
    requires !exists i :: i in l && Inside(range, i) && (i.min < range.min || range.max < i.max)
    ensures exists m :: Add(l, range) == Outside(l, range) + [m] && MergedHull(m, range, l)
  {
    MergeStart(l, range);
    AddScanMerges([], l, range, range, l);
    assert [] + Outside(l, range) == Outside(l, range);
    var m := Last(Add(l, range));
    assert Add(l, range) == Outside(l, range) + [m] && MergedHull(m, range, l);
  }

  /** `add` of a range apart from every stored interval appends it. */
  lemma {:induction false} AddScanApart(kept: seq<Range>, rest: seq<Range>, cur: Range)
    requires forall i :: i in rest ==> AddStep(i, cur).Pass?
    ensures AddScan(kept, rest, cur) == kept + rest + [cur]
    decreases |rest|
  {
    if |rest| > 0 {
      assert rest == [rest[0]] + rest[1..];
      AddScanApart(kept + [rest[0]], rest[1..], cur);
      assert kept + [rest[0]] + rest[1..] == kept + rest;
    }
  }

  /** Adding, one by one, the intervals of a valid list to a prefix of it
      rebuilds exactly that list. */
  lemma {:induction false} AddAllOfValid(p: seq<Range>, s: seq<Range>)
    requires Valid(p + s)
    ensures AddAll(p, s) == p + s
    decreases |s|
  {
    if |s| > 0 {
      var x := s[0];
      assert p + s == p + [x] + s[1..];
      forall k | k in p
        ensures AddStep(k, x).Pass?
      {
        assert k in p + s && x in p + s;
        assert k != x by {
          var a :| 0 <= a < |p| && p[a] == k;
          assert (p + s)[a] == k && (p + s)[|p|] == x;
        }
        ApartOfDistinct(p + s, k, x);
      }
      AddScanApart([], p, x);
      assert [] + p + [x] == p + [x];
      assert (p + [x]) + s[1..] == p + s;
      AddAllOfValid(p + [x], s[1..]);
    }
  }

  /** `add` applied to each range keeps the union. */
  lemma {:induction false} AddAllCovers(l: seq<Range>, rs: seq<Range>, x: real)
    ensures Covers(AddAll(l, rs), x) <==> Covers(l, x) || Covers(rs, x)
    decreases |rs|
  {
    if |rs| > 0 {
      AddCovers(l, rs[0]);
      AddAllCovers(Add(l, rs[0]), rs[1..], x);
      assert rs == [rs[0]] + rs[1..];
      assert Covers(rs, x) <==> Contains(rs[0], x) || Covers(rs[1..], x);
    }
  }

  lemma {:induction false} AddAllKeepsValid(l: seq<Range>, rs: seq<Range>)
    requires Valid(l) && WellFormedList(rs)
    ensures Valid(AddAll(l, rs))
    decreases |rs|
  {
    if |rs| > 0 {
      AddKeepsValid(l, rs[0]);
      AddAllKeepsValid(Add(l, rs[0]), rs[1..]);
    }
  }
}
