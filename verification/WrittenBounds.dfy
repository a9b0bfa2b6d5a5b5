/** The box that a header is written with, against the points of its run. */
module WrittenBounds {
  import opened Wrappers
  import opened Transforms
  import opened BoundingBoxes
  import opened RawPoints
  import opened Points
  import opened PointRewrite
  import opened Headers
  import opened Statistics
  import opened HeaderFiles
  import opened Writers
  import opened RoundTrip

  lemma SnappedBounds(fp: Fp, b: Bounds, t: Vector<Transform>)
    requires Adapt(fp, b, t).Ok?
    ensures var a := Adapt(fp, b, t).value;
            && Snap(fp, b.min.x, t.x, Floor) == Ok(a.min.x) && Snap(fp, b.max.x, t.x, Ceil) == Ok(a.max.x)
            && Snap(fp, b.min.y, t.y, Floor) == Ok(a.min.y) && Snap(fp, b.max.y, t.y, Ceil) == Ok(a.max.y)
            && Snap(fp, b.min.z, t.z, Floor) == Ok(a.min.z) && Snap(fp, b.max.z, t.z, Ceil) == Ok(a.max.z)
  {
  }

  predicate Between(lo: Ext, v: real, hi: Ext) {
    !Below(Fin(v), lo) && !Below(hi, Fin(v))
  }

  predicate Encloses(b: Bounds, p: Point) {
    Between(b.min.x, p.x, b.max.x) && Between(b.min.y, p.y, b.max.y) && Between(b.min.z, p.z, b.max.z)
  }

  /** The box that is written encloses every point as it is read back, under any order-preserving rounding. */
  lemma WrittenBoundsCoverReadPoints(fp: Fp, h: Header, ps: seq<Point>, i: nat)
    requires MonotoneRounding(fp) && IsExtent(h.bounds, ps) && AllStorable(fp, h, ps) && i < |ps|
    requires Adapt(fp, h.bounds, TransformsOf(fp, h)).Ok?
    requires var t := TransformsOf(fp, h); t.x.scale > 0.0 && t.y.scale > 0.0 && t.z.scale > 0.0
    ensures Encloses(Adapt(fp, h.bounds, TransformsOf(fp, h)).value, RereadAll(fp, h, ps)[i])
  {
    hide TransformsOf, RecordOf, Adapt, Snap, Direct, InverseWithRoundingMode;
    hide IsLeast, IsGreatest, DecodePoint, NewPoint;
    var t, b, p := TransformsOf(fp, h), h.bounds, ps[i];
    assert Storable(fp, h, p);
    PointReadsBack(fp, p, h.pointFormat, t);
    SnappedBounds(fp, b, t);
    assert Xs(ps)[i] == p.x && Ys(ps)[i] == p.y && Zs(ps)[i] == p.z;
    CoordinateIsCovered(fp, t.x, Xs(ps), b.min.x, b.max.x, p.x);
    CoordinateIsCovered(fp, t.y, Ys(ps), b.min.y, b.max.y, p.y);
    CoordinateIsCovered(fp, t.z, Zs(ps), b.min.z, b.max.z, p.z);
    RawCoordinates(fp, p, t);
  }

  lemma RawCoordinates(fp: Fp, p: Point, t: Vector<Transform>)
    requires IntoRaw(fp, p, t).Ok?
    ensures var raw := IntoRaw(fp, p, t).value;
            && Inverse(fp, t.x, p.x) == Ok(raw.x)
            && Inverse(fp, t.y, p.y) == Ok(raw.y)
            && Inverse(fp, t.z, p.z) == Ok(raw.z)
  {
  }

  lemma CoordinateIsCovered(fp: Fp, t: Transform, values: seq<real>, lo: Ext, hi: Ext, v: real)
    requires MonotoneRounding(fp) && t.scale > 0.0
    requires v in values && IsLeast(lo, values) && IsGreatest(hi, values)
    requires Snap(fp, lo, t, Floor).Ok? && Snap(fp, hi, t, Ceil).Ok?
    ensures Inverse(fp, t, v).Ok?
    ensures Between(Snap(fp, lo, t, Floor).value, Direct(fp, t, Inverse(fp, t, v).value), Snap(fp, hi, t, Ceil).value)
  {
    SnappedSidesCoverQuantised(fp, t, values, lo, hi, v);
  }

  /** The words of the file hold every `f64` that arithmetic gives. */
  ghost predicate FaithfulWords(fp: Fp) {
    forall x: real :: fp.dec(fp.enc(Fin(fp.rnd64(x)))) == Fin(fp.rnd64(x))
  }

  lemma SnappedSideIsKept(fp: Fp, e: Ext, t: Transform, mode: RoundingMode)
    requires FaithfulWords(fp) && e.Fin? && Snap(fp, e, t, mode).Ok?
    ensures var side := Snap(fp, e, t, mode).value; side.Fin? && fp.dec(fp.enc(side)) == side
  {
  }

  /** A box around points is read back as it was written. */
  lemma WrittenBoundsReadBack(fp: Fp, h: Header, ps: seq<Point>)
    requires FaithfulWords(fp) && IsExtent(h.bounds, ps) && ps != []
    requires Adapt(fp, h.bounds, TransformsOf(fp, h)).Ok?
    ensures HeaderBack(fp, h).bounds == Adapt(fp, h.bounds, TransformsOf(fp, h)).value
  {
    hide TransformsOf, Adapt, Snap, FaithfulWords;
    var t, b := TransformsOf(fp, h), h.bounds;
    SnappedBounds(fp, b, t);
    SnappedSideIsKept(fp, b.min.x, t.x, Floor);
    SnappedSideIsKept(fp, b.min.y, t.y, Floor);
    SnappedSideIsKept(fp, b.min.z, t.z, Floor);
    SnappedSideIsKept(fp, b.max.x, t.x, Ceil);
    SnappedSideIsKept(fp, b.max.y, t.y, Ceil);
    SnappedSideIsKept(fp, b.max.z, t.z, Ceil);
  }

  /** The box that is read encloses every point that is read. */
  lemma ReadBoundsCoverReadPoints(fp: Fp, h: Header, ps: seq<Point>, i: nat)
    requires FaithfulWords(fp) && MonotoneRounding(fp)
    requires IsExtent(h.bounds, ps) && AllStorable(fp, h, ps) && i < |ps|
    requires Adapt(fp, h.bounds, TransformsOf(fp, h)).Ok?
    requires var t := TransformsOf(fp, h); t.x.scale > 0.0 && t.y.scale > 0.0 && t.z.scale > 0.0
    ensures Encloses(HeaderBack(fp, h).bounds, RereadAll(fp, h, ps)[i])
  {
    hide HeaderBack, TransformsOf, Adapt, IsExtent, AllStorable, Between;
    WrittenBoundsReadBack(fp, h, ps);
    WrittenBoundsCoverReadPoints(fp, h, ps, i);
  }

  lemma ExactIsMonotone(fp: Fp)
    requires ExactRounding(fp)
    ensures MonotoneRounding(fp)
  {
  }

  /** After any run, in exact arithmetic with positive scales, the written box encloses every coordinate of the run
      and every coordinate that is read back; its sides are on the grid and less than one scale from the extremes. */
  lemma RunBoxIsTight(fp: Fp, h: Header, ps: seq<Point>)
    requires ExactRounding(fp) && ps != [] && AllStorable(fp, h, ps)
    requires var t := TransformsOf(fp, h); t.x.scale > 0.0 && t.y.scale > 0.0 && t.z.scale > 0.0
    requires Adapt(fp, AddedAll(Cleared(h), ps).bounds, TransformsOf(fp, h)).Ok?
    ensures var t, a := TransformsOf(fp, h), Adapt(fp, AddedAll(Cleared(h), ps).bounds, TransformsOf(fp, h)).value;
            && TightSides(fp, t.x, Xs(ps), a.min.x, a.max.x)
            && TightSides(fp, t.y, Ys(ps), a.min.y, a.max.y)
            && TightSides(fp, t.z, Zs(ps), a.min.z, a.max.z)
            && forall i | 0 <= i < |ps| :: Encloses(a, ps[i]) && Encloses(a, RereadAll(fp, h, ps)[i])
  {
    hide TransformsOf, Adapt, Snap, AddedAll, TightSides, AllStorable, ExactRounding, IsLeast, IsGreatest, Encloses;
    var k := AddedAll(Cleared(h), ps);
    var t, b := TransformsOf(fp, h), k.bounds;
    var a := Adapt(fp, b, t).value;
    BoundsAreExtent(h, ps);
    SnappedBounds(fp, b, t);
    SnappedSidesAreTight(fp, t.x, Xs(ps), b.min.x, b.max.x);
    SnappedSidesAreTight(fp, t.y, Ys(ps), b.min.y, b.max.y);
    SnappedSidesAreTight(fp, t.z, Zs(ps), b.min.z, b.max.z);
    ExactIsMonotone(fp);
    LayoutOfRun(fp, h, ps);
    forall i | 0 <= i < |ps| ensures Encloses(a, ps[i]) && Encloses(a, RereadAll(fp, h, ps)[i]) {
      TightSidesEnclose(fp, t, ps, a, i);
      WrittenBoundsCoverReadPoints(fp, k, ps, i);
    }
  }

  lemma TightSidesEnclose(fp: Fp, t: Vector<Transform>, ps: seq<Point>, a: Bounds, i: nat)
    requires i < |ps|
    requires TightSides(fp, t.x, Xs(ps), a.min.x, a.max.x)
    requires TightSides(fp, t.y, Ys(ps), a.min.y, a.max.y)
    requires TightSides(fp, t.z, Zs(ps), a.min.z, a.max.z)
    ensures Encloses(a, ps[i])
  {
    hide TightSides, Between;
    assert Xs(ps)[i] == ps[i].x && Ys(ps)[i] == ps[i].y && Zs(ps)[i] == ps[i].z;
    TightSidesHold(fp, t.x, Xs(ps), a.min.x, a.max.x, ps[i].x);
    TightSidesHold(fp, t.y, Ys(ps), a.min.y, a.max.y, ps[i].y);
    TightSidesHold(fp, t.z, Zs(ps), a.min.z, a.max.z, ps[i].z);
  }

  lemma TightSidesHold(fp: Fp, t: Transform, values: seq<real>, lo: Ext, hi: Ext, v: real)
    requires TightSides(fp, t, values, lo, hi) && v in values
    ensures Between(lo, v, hi)
  {
  }

  /** Counting points does not change how they are stored. */
  lemma LayoutOfRun(fp: Fp, h: Header, ps: seq<Point>)
    requires AllStorable(fp, h, ps)
    ensures var k := AddedAll(Cleared(h), ps);
            && TransformsOf(fp, k) == TransformsOf(fp, h)
            && AllStorable(fp, k, ps) && RereadAll(fp, k, ps) == RereadAll(fp, h, ps)
  {
    hide Storable;
    var k := AddedAll(Cleared(h), ps);
    OnlyStatisticsChange(Cleared(h), ps);
    BodyDependsOnLayout(fp, h, k, ps);
    assert RereadAll(fp, k, ps) == RereadAll(fp, h, ps);
  }
}
