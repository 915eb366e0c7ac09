/** The interval set as a sequence of ranges, in the order `std::list` keeps
    them, and the invariant the mutations maintain: every stored interval is
    well formed and no two share a point. `size()` is `|l|` and `clear()`
    is the empty sequence. */
module RangeLists {
  import opened ValueRange

  /** The point `x` belongs to the union of the list. */
  predicate Covers(l: seq<Range>, x: real) {
    exists r :: r in l && Contains(r, x)
  }

  predicate WellFormedList(l: seq<Range>) {
    forall r :: r in l ==> WellFormed(r)
  }

  /** No two stored intervals share a point. */
  predicate Disjoint(l: seq<Range>) {
    forall a, b :: 0 <= a < b < |l| ==> Apart(l[a], l[b])
  }

  /** The steady-state invariant of the interval set. */
  predicate Valid(l: seq<Range>) {
    WellFormedList(l) && Disjoint(l)
  }

  /** Two different values stored in a disjoint list are apart. */
  lemma ApartOfDistinct(l: seq<Range>, x: Range, y: Range)
    requires Disjoint(l) && x in l && y in l && x != y
    ensures Apart(x, y)
  {
    var a :| 0 <= a < |l| && l[a] == x;
    var b :| 0 <= b < |l| && l[b] == y;
    if a < b {
      assert Apart(l[a], l[b]);
    } else {
      assert Apart(l[b], l[a]);
    }
  }

  /** The head of a valid list is apart from everything after it, and the
      tail is valid. */
  lemma HeadApart(l: seq<Range>)
    requires Valid(l) && |l| > 0
    ensures Valid(l[1..])
    ensures forall y :: y in l[1..] ==> Apart(l[0], y)
  {
    forall y | y in l[1..]
      ensures Apart(l[0], y)
    {
      var b :| 0 <= b < |l[1..]| && l[1..][b] == y;
      assert l[b + 1] == y;
    }
  }

  /** Dropping one element keeps a list disjoint. */
  lemma DisjointWithout(a: seq<Range>, x: Range, b: seq<Range>)
    requires Disjoint(a + [x] + b)
    ensures Disjoint(a + b)
  {
    var s := a + [x] + b;
    var t := a + b;
    forall i, j | 0 <= i < j < |t|
      ensures Apart(t[i], t[j])
    {
      var i' := if i < |a| then i else i + 1;
      var j' := if j < |a| then j else j + 1;
      assert t[i] == s[i'] && t[j] == s[j'];
    }
  }

  /** Two disjoint lists whose elements are pairwise apart concatenate to a
      disjoint list. */
  lemma DisjointConcat(a: seq<Range>, b: seq<Range>)
    requires Disjoint(a) && Disjoint(b)
    requires forall y, z :: y in a && z in b ==> Apart(y, z)
    ensures Disjoint(a + b)
  {
    var t := a + b;
    forall i, j | 0 <= i < j < |t|
      ensures Apart(t[i], t[j])
    {
      if j < |a| {
        assert t[i] == a[i] && t[j] == a[j];
      } else if i >= |a| {
        assert t[i] == b[i - |a|] && t[j] == b[j - |a|];
      } else {
        assert t[i] == a[i] && t[j] == b[j - |a|];
        assert t[i] in a && t[j] in b;
      }
    }
  }
}
