# Value ranges: a Dafny model of `CValueRange` and `CValueRangeList`

The header `CU_valuRange.h` holds two classes. `CValueRange` is a closed
interval `[min, max]` of angles. Each end carries a distance: how far away
the obstacle that produced that boundary is. `CValueRangeList` is a list of
such intervals, used as a set of free shooting angles. It supports:

- `add`: union, merging any interval the new range touches;
- `remove`: subtraction, which clips or splits the intervals it cuts;
- `removeAngleRange`: removal of a window on the circle `[-PI, PI]`;
- selection queries: largest interval, interval closest to a bearing,
  interval holding a value;
- `operator-`: the difference of two lists.

The model is functional. `Range` is an immutable datatype over `real`, and
a list is a `seq<Range>` in the order the source's `std::list` keeps. The
source's erase-while-iterating loops become recursive functions:

- `RangeAdd.AddScan` carries the merged range as it grows.
- `RangeRemove.RemoveLoop` is a worklist. The remainder pieces of a split
  are appended to its back, so they are visited again in the same pass,
  just as `push_back` onto a `std::list` under iteration makes them.

Modules:

- `ValueRange` (`ranges.dfy`): the interval, its size, middle and resize,
  and the predicates the rest is stated in (`Contains`, `Inside`, `Meets`,
  `Apart`).
- `RangeLists` (`range_lists.dfy`): covered points, and "valid", meaning
  every interval is well formed and no two share a point.
- `RangeAdd` (`add.dfy`): `add`, and the fold of `add` used by `operator-`.
- `RangeRemove` (`remove.dfy`): `remove` with its worklist, and a
  loop-free reference form (survivors followed by split remainders) the
  loop is proved equal to. Also the fold of `remove`.
- `AngleRemove` (`angle.dfy`): both `removeAngleRange` overloads.
- `RangeQueries` (`queries.dfy`): the selection queries, as loops over the
  sequence that return an index or `None` where the source returns a
  pointer or null.
- `RangeDifference` (`difference.dfy`): `operator-`.
- `RangeScenarios` (`scenarios.dfy`): worked examples and round trips.

Some modelling choices follow the code closely:

- `remove` is modelled for cuts with `min < max`. With a degenerate cut
  `[c, c]` inside any interval other than `[c, c]` itself, the split pushes
  a piece (`[i.min, c]`, or `[c, i.max]` when `c == i.min`) whose revisit
  takes the split branch again and pushes the same piece once more, so the
  source loop never ends. `RangeRemove.DegenerateCutRepeats` proves this.
  An inverted cut (`max < min`) diverges as well whenever some interval
  satisfies the split condition of line 66 (`i.min <= cut.min` and
  `cut.max <= i.max`), even one that shares no point with the cut:
  `RangeRemove.InvertedCutRepeats`. The operations therefore require
  `NonDegenerate`. That also excludes the cuts on which the source does
  terminate: a degenerate cut inside no interval of positive length, and,
  on a well-formed list, an inverted cut that no interval satisfies the
  split condition for.
- The two partial-overlap clips of `remove` (lines 78 and 82) both pass
  `(i.minDist, range.minDist)` as the new distances. At line 82 this is
  evidently a slip; see "## Findings". The list-level model
  (`RangeRemove` and everything built on it) follows the code as written,
  argument for argument, because it describes what the program does. As a
  result, the upper piece of a split ends up with upper distance
  `range.minDist` once it is revisited (`RangeRemove.PiecesSettle`,
  `RangeRemove.RemoveDistances`). The corrected step is
  `RangeRemoveIntended.IntendedCutStep`.
- When `add` returns early, erasures it has already made stay made. In a
  valid list nothing is erased before the early return
  (`RangeAdd.AddEnclosedIsNoOp`).
- `abs` in `getClosestRange` is taken as the absolute value of a real.

## Model

| member | source | states |
|---|---|---|
| ValueRange.Interval | CUDA/SSL_CUDA/Test4/Test4/CU_valuRange.h:11 | the two-argument constructor: zero distances at both ends, and it holds exactly the points of `[lo, hi]` |
| ValueRange.Size | CUDA/SSL_CUDA/Test4/Test4/CU_valuRange.h:15 | `getSize` is non-negative exactly when the interval is well formed; it bounds the distance between any two points the interval holds, and for a well-formed interval the bound is reached (`min + size` is held), so it is the interval's length |
| ValueRange.Middle | CUDA/SSL_CUDA/Test4/Test4/CU_valuRange.h:16 | `getMiddle` is equidistant from both bounds, and lies in the interval exactly when the interval is well formed |
| ValueRange.Resize | CUDA/SSL_CUDA/Test4/Test4/CU_valuRange.h:17 | the two-argument `resize` keeps both distances, and the result holds exactly the points of `[lo, hi]` |
| ValueRange.MeetsIffSharedPoint | CUDA/SSL_CUDA/Test4/Test4/CU_valuRange.h:35-55 | for well-formed intervals, the branch conditions of `add` that merge (`Meets`) hold exactly when the intervals share a point, and "apart" is their negation |
| RangeAdd.AddStep | CUDA/SSL_CUDA/Test4/Test4/CU_valuRange.h:35-55 | one scan step of `add`: an interval is erased exactly when it lies inside the range; the early return happens exactly for a range inside the interval and strictly shorter than it; a merge covers exactly the union of the two, taking each bound's distance from the side that supplied that bound; for well-formed inputs an interval is kept exactly when it shares no point with the range |
| RangeAdd.AddCovers | CUDA/SSL_CUDA/Test4/Test4/CU_valuRange.h:32-58 | after `add`, a point is covered exactly when it was covered before or lies in the added range (any list) |
| RangeAdd.AddKeepsValid | CUDA/SSL_CUDA/Test4/Test4/CU_valuRange.h:34-57 | `add` of a well-formed range keeps a list well formed and pairwise apart |
| RangeAdd.AddMerges | CUDA/SSL_CUDA/Test4/Test4/CU_valuRange.h:39-57 | in a valid list with no interval strictly enclosing the range, the intervals not meeting the range survive unchanged and in order, and the merged range comes last (so the length grows by at most one). The merged range encloses the range and every interval it met. Each of its bounds, with that bound's distance, comes from the range or from an interval it met |
| RangeAdd.AddEnclosedIsNoOp | CUDA/SSL_CUDA/Test4/Test4/CU_valuRange.h:39-42 | adding a range strictly enclosed by an interval of a valid list returns the list unchanged |
| RangeAdd.AddAllCovers | CUDA/SSL_CUDA/Test4/Test4/CU_valuRange.h:214-216 | after adding a sequence of ranges, a point is covered exactly when it was covered or lies in one of them |
| RangeAdd.AddAllKeepsValid | CUDA/SSL_CUDA/Test4/Test4/CU_valuRange.h:214-216 | adding well-formed ranges one by one keeps a list valid: no two results overlap or touch |
| RangeAdd.AddAllOfValid | CUDA/SSL_CUDA/Test4/Test4/CU_valuRange.h:214-216 | adding, in order, the intervals of a valid continuation of a list appends them unchanged |
| RangeRemove.Remainder | CUDA/SSL_CUDA/Test4/Test4/CU_valuRange.h:68-73 | the split pieces: at most two; each lies inside the split interval; none holds a point strictly inside the cut; points of the interval below the cut are held by the first piece, and points above it by the last; every piece has positive length, so an empty side is never pushed; each piece is either the lower piece `[i.min, cut.min]` with distances `(i.minDist, cut.minDist)` or the upper piece `[cut.max, i.max]` with `(cut.maxDist, upperMaxDist)` |
| RangeRemove.CutStep | CUDA/SSL_CUDA/Test4/Test4/CU_valuRange.h:62-86 | one step of `remove`: an interval is erased exactly when it lies inside the cut; it is split exactly when it encloses the cut and is not inside it; a kept or clipped interval lies inside the original, stays well formed, holds no point strictly inside the cut, and keeps every point of the original outside the closed cut |
| RangeRemove.PiecesSettle | CUDA/SSL_CUDA/Test4/Test4/CU_valuRange.h:66-84 | for a cut with `min < max`, each piece pushed by a split takes a clip branch when revisited, never the split branch again; the settled pieces are the lower piece and an upper piece whose upper distance is the cut's `minDist` |
| RangeRemove.RemoveLoop | CUDA/SSL_CUDA/Test4/Test4/CU_valuRange.h:61-88 | the `remove` loop terminates for a cut with `min < max`, keeps what it has already emitted, and adds at most one result per queued interval plus one per pending split |
| RangeRemove.Remove | CUDA/SSL_CUDA/Test4/Test4/CU_valuRange.h:59-89 | every interval `remove` leaves lies inside an interval of the old list, and the length at most doubles |
| RangeRemove.RemoveIsSurvivorsThenRemainders | CUDA/SSL_CUDA/Test4/Test4/CU_valuRange.h:61-88 | the loop with its revisits equals the clipped or untouched intervals in their old order, followed by the settled remainders of every split interval in order |
| RangeRemove.SurvivorsOrigin | CUDA/SSL_CUDA/Test4/Test4/CU_valuRange.h:76-85 | an interval is among the survivors exactly when it is the kept or clipped form of an old interval |
| RangeRemove.RemaindersOrigin | CUDA/SSL_CUDA/Test4/Test4/CU_valuRange.h:66-74 | a piece is among the remainders exactly when it is a settled piece of an old interval that the cut splits; with no split there are no remainders |
| RangeRemove.RemoveCovers | CUDA/SSL_CUDA/Test4/Test4/CU_valuRange.h:59-89 | after `remove`, every covered point was covered before and lies outside the open cut, and every old point outside the closed cut is still covered |
| RangeRemove.RemoveKeepsValid | CUDA/SSL_CUDA/Test4/Test4/CU_valuRange.h:59-89 | `remove` keeps a list well formed and pairwise apart |
| RangeRemove.RemoveDistances | CUDA/SSL_CUDA/Test4/Test4/CU_valuRange.h:69-84 | every result of `remove` on a well-formed list takes one of four forms. It is an old interval apart from the cut; or a lower clip or lower piece with distances `(i.minDist, cut.minDist)`; or an upper clip with `(i.minDist, cut.minDist)`; or a revisited upper piece with `(cut.maxDist, cut.minDist)` |
| RangeRemove.DegenerateCutRepeats | CUDA/SSL_CUDA/Test4/Test4/CU_valuRange.h:66-74 | with a cut `[c, c]` inside an interval of positive length, the split pushes a piece that, revisited, takes the split branch again and pushes itself once more: the lower piece when `c` is above the lower end, the upper piece when `c` is the lower end |
| RangeRemove.InvertedCutRepeats | CUDA/SSL_CUDA/Test4/Test4/CU_valuRange.h:66-74 | with an inverted cut (`max < min`), a well-formed interval satisfying the split condition splits, and one of its pieces, revisited, splits again and pushes itself once more, so the loop never ends |
| RangeRemoveIntended.IntendedCutStep | CUDA/SSL_CUDA/Test4/Test4/CU_valuRange.h:62-86 | the corrected step erases and splits exactly where the code does, splits into the pieces pushed at lines 69 and 72, and clips to the same bounds |
| RangeRemoveIntended.IntendedClipKeepsOrigins | CUDA/SSL_CUDA/Test4/Test4/CU_valuRange.h:76-84 | with the corrected clip, each bound of a kept or clipped interval carries the distance of the side that supplied it |
| RangeRemoveIntended.IntendedPiecesAreFinal | CUDA/SSL_CUDA/Test4/Test4/CU_valuRange.h:66-84 | with the corrected clip, split pieces are unchanged by their revisit, so the upper piece keeps `i.maxDist` as pushed at line 72 |
| RangeRemoveIntended.AsWrittenClipLosesOrigins | CUDA/SSL_CUDA/Test4/Test4/CU_valuRange.h:82 | the code as written turns `[5, 10]` with distances `(1, 2)`, cut by `[0, 6]` with `(3, 4)`, into `[6, 10]` with `(1, 3)`, breaking the origin rule; the corrected step gives `(4, 2)` |
| RangeRemove.RemoveAllCovers | CUDA/SSL_CUDA/Test4/Test4/CU_valuRange.h:217-219 | after removing a sequence of cuts, a covered point was covered and lies outside every open cut; an old point outside every closed cut stays covered |
| RangeRemove.RemoveAllKeepsValid | CUDA/SSL_CUDA/Test4/Test4/CU_valuRange.h:217-219 | removing cuts one by one keeps a list valid |
| AngleRemove.AngleCuts | CUDA/SSL_CUDA/Test4/Test4/CU_valuRange.h:93-104 | the window becomes one or two cuts, each with `min < max` and `dist` at both ends |
| AngleRemove.RemoveAngleRange | CUDA/SSL_CUDA/Test4/Test4/CU_valuRange.h:90-106 | the two-argument overload (zero distances) leaves only intervals lying inside old ones |
| AngleRemove.RemoveAngleRangeDist | CUDA/SSL_CUDA/Test4/Test4/CU_valuRange.h:107-123 | the three-argument overload leaves only intervals lying inside old ones |
| AngleRemove.WindowIsCuts | CUDA/SSL_CUDA/Test4/Test4/CU_valuRange.h:93-104 | a point of the open domain that lies in the window (read modulo one turn) lies strictly inside one of the cuts; a point of the closed domain outside the closed window lies outside every cut |
| AngleRemove.AngleRemovalClearsWindow | CUDA/SSL_CUDA/Test4/Test4/CU_valuRange.h:90-123 | after `removeAngleRange`, no point of the open domain inside the window is covered; every covered point of the closed domain outside the closed window stays covered; nothing new is covered |
| AngleRemove.SeamWindowCuts | CUDA/SSL_CUDA/Test4/Test4/CU_valuRange.h:116-118 | a window centred at `PI - 0.1` with half size `0.2` is removed as `[PI - 0.3, PI]` and then `[-PI, -PI + 0.1]` |
| RangeQueries.GetMaxRange | CUDA/SSL_CUDA/Test4/Test4/CU_valuRange.h:128-141 | none exactly when the list is empty; otherwise the first interval whose size is at least every other size |
| RangeQueries.GetMaxRangeWidth | CUDA/SSL_CUDA/Test4/Test4/CU_valuRange.h:142-155 | the same selection by width score |
| RangeQueries.GetClosestRange | CUDA/SSL_CUDA/Test4/Test4/CU_valuRange.h:157-177 | none exactly when no interval has size at least `size`; otherwise a qualifying interval whose middle is nearest `base` among all qualifying ones, the earliest on ties |
| RangeQueries.GetClosestRangeWidth | CUDA/SSL_CUDA/Test4/Test4/CU_valuRange.h:179-199 | the same selection with width score as the qualifying measure |
| RangeQueries.FindRange | CUDA/SSL_CUDA/Test4/Test4/CU_valuRange.h:201-209 | none exactly when no interval holds the value strictly inside; otherwise the first one that does |
| RangeQueries.FirstMaxUnique | CUDA/SSL_CUDA/Test4/Test4/CU_valuRange.h:134-139 | the largest-interval choice is determined: ties always go to the same, earliest, interval |
| RangeQueries.FirstClosestUnique | CUDA/SSL_CUDA/Test4/Test4/CU_valuRange.h:161-175 | the closest-interval choice is determined |
| RangeQueries.EqualArcsPickFirst | CUDA/SSL_CUDA/Test4/Test4/CU_valuRange.h:134-139 | of the equal arcs `[-PI, -1]` and `[1, PI]`, the first is the largest-interval choice and the second is not |
| RangeDifference.Difference | CUDA/SSL_CUDA/Test4/Test4/CU_valuRange.h:211-221 | `operator-` of a well-formed list yields a valid list (pairwise apart), even when the list itself overlaps |
| RangeDifference.DifferenceCovers | CUDA/SSL_CUDA/Test4/Test4/CU_valuRange.h:211-221 | a point covered by `a - b` is covered by `a` and lies outside every open interval of `b`; a point of `a` outside every closed interval of `b` is covered by `a - b` |
| RangeDifference.DifferenceOfNothing | CUDA/SSL_CUDA/Test4/Test4/CU_valuRange.h:211-221 | `a - []` equals `a` for a valid `a` |
| RangeDifference.DifferenceOfItself | CUDA/SSL_CUDA/Test4/Test4/CU_valuRange.h:211-221 | `a - a` is empty for a valid `a` whose intervals have positive length |
| RangeDifference.RemoveAllOfItself | CUDA/SSL_CUDA/Test4/Test4/CU_valuRange.h:217-219 | removing the intervals of a valid list from it, one by one, leaves nothing |
| RangeScenarios.CutCentreOfCircle | CUDA/SSL_CUDA/Test4/Test4/CU_valuRange.h:59-89 | removing `[-1, 1]` from `[[-PI, PI]]` gives `[[-PI, -1], [1, PI]]` |
| RangeScenarios.OverlappingAddsMerge | CUDA/SSL_CUDA/Test4/Test4/CU_valuRange.h:32-58 | adding `[0, 2]` then `[1, 3]` to the empty list gives `[[0, 3]]` |
| RangeScenarios.SplitThenRejoin | CUDA/SSL_CUDA/Test4/Test4/CU_valuRange.h:32-84 | removing a cut strictly inside an interval and adding the cut back restores the interval's bounds. The lower distance is kept, and the upper distance becomes the cut's `minDist` |
| RangeScenarios.SubsumedAddKeepsCover | CUDA/SSL_CUDA/Test4/Test4/CU_valuRange.h:32-58 | adding a range that an interval already holds leaves the covered points unchanged |

## Left out

- `getWidth` (line 20): its formula uses `sin`, `exp` and `Param::Field::PITCH_LENGTH`, which is defined in `CU_param.h`; `CU_param.h` is not part of this model. The width score is a parameter `width: Range -> real` of the queries, so their selection logic is proved for any score.
- `Param::Math::PI` is a parameter `pi` with `0 < pi`; its value is defined outside this header.
- IEEE-754 rounding of `double`: bounds and distances are exact reals.
- The getters, the four-argument constructor and the four-argument `resize` (lines 12-14, 18-19, 21): the datatype's fields and constructor are these directly.
- `size()` and `clear()` (lines 124, 127) are `|l|` and `[]` on the sequence. `begin()` and `end()` (lines 125-126) expose iterators, and those are not modelled.
- The CUDA `__device__` qualifiers, the runtime headers and `std::list` node allocation have no counterpart.
- The pointers returned by the queries are indices into the sequence. Their lifetime and aliasing are not modelled.
- RangeRemove.Remove: requires `cut.min < cut.max`. The source loop does not terminate for a degenerate cut inside any interval other than `[c, c]`, so that case has no result to model (see `RangeRemove.DegenerateCutRepeats`). An inverted cut diverges on any interval satisfying the split condition of line 66 (see `RangeRemove.InvertedCutRepeats`). The requirement also excludes the cuts on which the source terminates: a degenerate cut inside no interval of positive length, and, on a well-formed list, an inverted cut that no interval satisfies the split condition for.
- AngleRemove.RemoveAngleRange: requires a positive half size and a window reaching into the open domain `(-PI, PI)`. Otherwise a cut is degenerate or inverted, and `remove` may not terminate. The source also assumes, without checking, that the half size is small next to `PI`. The window lemmas hold under the same requirement.
- AngleRemove.RemoveAngleRangeDist: has the same requirement, for the same reason.
- RangeDifference.Difference: requires every interval of the subtrahend to have `min < max`, for the same reason as `remove`.

## Findings

| source | as written | input that shows it | evidently intended | confidence | as-written member | corrected member |
|---|---|---|---|---|---|---|
| CUDA/SSL_CUDA/Test4/Test4/CU_valuRange.h:82 | the low-side clip resizes to `[range.max, i.max]` with distances `(i.minDist, range.minDist)`, copied from the high-side clip at line 78 | `[5, 10]` with distances `(1, 2)`, cut by `[0, 6]` with `(3, 4)`: the result `[6, 10]` has `(1, 3)`, so the kept bound `10` loses its distance and the new bound `6` gets the distance of the bound cut away. A split's upper piece, pushed with `i.maxDist` at line 72, loses it the same way on its revisit | `(range.maxDist, i.maxDist)`, as the split branch pushes at line 72 | high that it is a slip (the split branch and the line-78 clip both give each bound its supplier's distance); not executed | RangeRemoveIntended.AsWrittenClipLosesOrigins | RangeRemoveIntended.IntendedCutStep |
