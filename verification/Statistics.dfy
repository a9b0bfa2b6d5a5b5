/** What the statistics of a header are after a run of points. */
module Statistics {
  import opened Wrappers
  import opened Bytes
  import opened Transforms
  import opened BoundingBoxes
  import opened Points
  import opened Headers

  /** How many points of a run have the return number `k`. */
  function Returns(ps: seq<Point>, k: u8): nat {
    if ps == [] then 0
    else Returns(ps[..|ps| - 1], k) + if Octet(ps[|ps| - 1].returnNumber) == k then 1 else 0
  }

  /** The sum of the histogram entries up to a return number. */
  function SumTo(m: map<u8, u64>, k: nat): nat {
    if k == 0 then 0 else SumTo(m, k - 1) + CountOf(m, k)
  }

  function Xs(ps: seq<Point>): seq<real> {
    seq(|ps|, i requires 0 <= i < |ps| => ps[i].x)
  }

  function Ys(ps: seq<Point>): seq<real> {
    seq(|ps|, i requires 0 <= i < |ps| => ps[i].y)
  }

  function Zs(ps: seq<Point>): seq<real> {
    seq(|ps|, i requires 0 <= i < |ps| => ps[i].z)
  }

  /** The box is the exact extent of the run. */
  ghost predicate IsExtent(b: Bounds, ps: seq<Point>) {
    && IsLeast(b.min.x, Xs(ps)) && IsGreatest(b.max.x, Xs(ps))
    && IsLeast(b.min.y, Ys(ps)) && IsGreatest(b.max.y, Ys(ps))
    && IsLeast(b.min.z, Zs(ps)) && IsGreatest(b.max.z, Zs(ps))
  }

  lemma ReturnsBound(ps: seq<Point>, k: u8)
    ensures Returns(ps, k) <= |ps|
  {
  }

  /** Each histogram entry is the number of points of that return, and there are no others. */
  lemma {:induction false} HistogramCounts(h: Header, ps: seq<Point>, k: u8)
    ensures var m := AddedAll(Cleared(h), ps).byReturn;
            && (k in m <==> k > 0 && Returns(ps, k) > 0)
            && (k in m ==> m[k] == Returns(ps, k) % 0x1_0000_0000_0000_0000)
            && (k in m && |ps| <= U64_MAX ==> m[k] == Returns(ps, k))
  {
    ReturnsBound(ps, k);
    if ps != [] {
      var front := ps[..|ps| - 1];
      HistogramCounts(h, front, k);
      SuccessorWraps(Returns(front, k));
    }
  }

  /** Counting is counting modulo the width of the count. */
  lemma SuccessorWraps(n: nat)
    ensures Successor(n % 0x1_0000_0000_0000_0000) == (n + 1) % 0x1_0000_0000_0000_0000
  {
  }

  /** The number of points, which wraps after 64 bits. */
  lemma {:induction false} PointCount(h: Header, ps: seq<Point>)
    ensures AddedAll(Cleared(h), ps).numberOfPoints == |ps| % 0x1_0000_0000_0000_0000
    ensures |ps| <= U64_MAX ==> AddedAll(Cleared(h), ps).numberOfPoints == |ps|
  {
    if ps != [] {
      PointCount(h, ps[..|ps| - 1]);
      SuccessorWraps(|ps| - 1);
    }
  }

  lemma {:induction false} SumAfterCounting(m: map<u8, u64>, n: map<u8, u64>, r: u8, k: nat)
    requires k <= 255
    requires forall j: u8 | j != r :: CountOf(n, j) == CountOf(m, j)
    requires CountOf(n, r) == CountOf(m, r) + 1
    ensures SumTo(n, k) == SumTo(m, k) + if 1 <= r <= k then 1 else 0
  {
    if k > 0 {
      SumAfterCounting(m, n, r, k - 1);
    }
  }

  /** No point is lost or counted twice: the histogram and the points without a return number add up. */
  lemma {:induction false} CountsAddUp(h: Header, ps: seq<Point>)
    requires |ps| <= U64_MAX
    ensures SumTo(AddedAll(Cleared(h), ps).byReturn, 255) + Returns(ps, 0) == AddedAll(Cleared(h), ps).numberOfPoints
  {
    hide SumTo;
    PointCount(h, ps);
    if ps == [] {
      EmptySum(255);
    } else {
      var front := ps[..|ps| - 1];
      var m, r := AddedAll(Cleared(h), front).byReturn, Octet(ps[|ps| - 1].returnNumber);
      CountsAddUp(h, front);
      PointCount(h, front);
      HistogramCounts(h, front, r);
      ReturnsBound(front, r);
      if r > 0 {
        SumAfterCounting(m, CountReturn(m, r), r, 255);
      }
    }
  }

  lemma {:induction false} EmptySum(k: nat)
    ensures SumTo(map[], k) == 0
  {
    if k > 0 {
      EmptySum(k - 1);
    }
  }

  /** The bounds are the exact minimum and maximum of every coordinate of the run. */
  lemma {:induction false} BoundsAreExtent(h: Header, ps: seq<Point>)
    ensures IsExtent(AddedAll(Cleared(h), ps).bounds, ps)
  {
    if ps != [] {
      var n := |ps| - 1;
      BoundsAreExtent(h, ps[..n]);
      var b, p := AddedAll(Cleared(h), ps[..n]).bounds, ps[n];
      assert Xs(ps) == Xs(ps[..n]) + [p.x] && Ys(ps) == Ys(ps[..n]) + [p.y] && Zs(ps) == Zs(ps[..n]) + [p.z];
      GrowKeepsExtremes(b.min.x, b.max.x, Xs(ps[..n]), p.x);
      GrowKeepsExtremes(b.min.y, b.max.y, Ys(ps[..n]), p.y);
      GrowKeepsExtremes(b.min.z, b.max.z, Zs(ps[..n]), p.z);
    }
  }

  /** Counting points changes nothing else in a header. */
  lemma {:induction false} OnlyStatisticsChange(h: Header, ps: seq<Point>)
    ensures var a := AddedAll(h, ps);
            a == h.(numberOfPoints := a.numberOfPoints, byReturn := a.byReturn, bounds := a.bounds)
  {
    if ps != [] {
      OnlyStatisticsChange(h, ps[..|ps| - 1]);
    }
  }
}
