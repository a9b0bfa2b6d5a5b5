/** The bounding box of a header: growing it over a run and snapping it to the grid. */
module BoundingBoxes {
  import opened Wrappers
  import opened Transforms

  datatype Bounds = Bounds(min: Vector<Ext>, max: Vector<Ext>)

  const EMPTY_BOUNDS := Bounds(Vector(PosInf, PosInf, PosInf), Vector(NegInf, NegInf, NegInf))

  predicate Below(a: Ext, b: Ext) {
    match (a, b)
    case (Fin(x), Fin(y)) => x < y
    case _ => a != b && (a.NegInf? || b.PosInf?)
  }

  function GrowMin(e: Ext, v: real): Ext {
    if Below(Fin(v), e) then Fin(v) else e
  }

  function GrowMax(e: Ext, v: real): Ext {
    if Below(e, Fin(v)) then Fin(v) else e
  }

  function Grow(b: Bounds, p: Vector<real>): Bounds {
    Bounds(
      Vector(GrowMin(b.min.x, p.x), GrowMin(b.min.y, p.y), GrowMin(b.min.z, p.z)),
      Vector(GrowMax(b.max.x, p.x), GrowMax(b.max.y, p.y), GrowMax(b.max.z, p.z)))
  }

  /** Snap one side of the box to a coordinate the file can store. */
  function Snap(fp: Fp, e: Ext, t: Transform, mode: RoundingMode): Result<Ext> {
    if !e.Fin? then Ok(e)
    else
      var n :- InverseWithRoundingMode(fp, t, e.r, mode);
      Ok(Fin(Direct(fp, t, n)))
  }

  function Adapt(fp: Fp, b: Bounds, t: Vector<Transform>): Result<Bounds> {
    var minX :- Snap(fp, b.min.x, t.x, Floor);
    var minY :- Snap(fp, b.min.y, t.y, Floor);
    var minZ :- Snap(fp, b.min.z, t.z, Floor);
    var maxX :- Snap(fp, b.max.x, t.x, Ceil);
    var maxY :- Snap(fp, b.max.y, t.y, Ceil);
    var maxZ :- Snap(fp, b.max.z, t.z, Ceil);
    Ok(Bounds(Vector(minX, minY, minZ), Vector(maxX, maxY, maxZ)))
  }

  // What a side of the box is for a whole run of coordinates.

  ghost predicate IsLeast(e: Ext, values: seq<real>) {
    if values == [] then e == PosInf
    else e.Fin? && e.r in values && forall v | v in values :: e.r <= v
  }

  ghost predicate IsGreatest(e: Ext, values: seq<real>) {
    if values == [] then e == NegInf
    else e.Fin? && e.r in values && forall v | v in values :: v <= e.r
  }

  lemma GrowKeepsExtremes(lo: Ext, hi: Ext, values: seq<real>, v: real)
    requires IsLeast(lo, values) && IsGreatest(hi, values)
    ensures IsLeast(GrowMin(lo, v), values + [v]) && IsGreatest(GrowMax(hi, v), values + [v])
  {
    assert forall w :: w in values + [v] <==> w in values || w == v;
  }

  /** Under any order-preserving rounding the snapped sides enclose every coordinate as it is read back. */
  lemma SnappedSidesCoverQuantised(fp: Fp, t: Transform, values: seq<real>, lo: Ext, hi: Ext, v: real)
    requires MonotoneRounding(fp) && t.scale > 0.0
    requires v in values && IsLeast(lo, values) && IsGreatest(hi, values)
    requires Snap(fp, lo, t, Floor).Ok? && Snap(fp, hi, t, Ceil).Ok?
    ensures Inverse(fp, t, v).Ok?
    ensures var r := Direct(fp, t, Inverse(fp, t, v).value);
            Snap(fp, lo, t, Floor).value.r <= r <= Snap(fp, hi, t, Ceil).value.r
  {
    RoundedQuotientsAreOrdered(fp, t, lo.r, v, hi.r);
    var n := RoundBy(Quotient(fp, t, lo.r), Floor);
    var k := RoundBy(Quotient(fp, t, v), Round);
    var m := RoundBy(Quotient(fp, t, hi.r), Ceil);
    DirectIsMonotone(fp, t, n, k);
    DirectIsMonotone(fp, t, k, m);
  }

  lemma ScaledFraction(g: real, scale: real, product: real)
    requires scale > 0.0 && product == g * scale
    ensures 0.0 <= g < 1.0 ==> 0.0 <= product < scale
  {
  }

  lemma UnitGapScales(n: real, q: real, scale: real, offset: real, s: real, e: real)
    requires scale > 0.0 && s == scale * n + offset && q * scale == e - offset
    ensures n <= q < n + 1.0 ==> 0.0 <= e - s < scale
    ensures n - 1.0 < q <= n ==> 0.0 <= s - e < scale
  {
    ScaledFraction(q - n, scale, e - s);
    ScaledFraction(n - q, scale, s - e);
  }

  /** In exact arithmetic the snapped side lies on the grid, outside the true extreme and within one scale of it. */
  lemma SnappedSideIsTight(fp: Fp, t: Transform, e: real, mode: RoundingMode)
    requires ExactRounding(fp) && t.scale > 0.0 && mode != Round
    requires Snap(fp, Fin(e), t, mode).Ok?
    ensures var s := Snap(fp, Fin(e), t, mode).value.r;
            && (exists n: i32 :: s == Direct(fp, t, n))
            && (if mode == Floor then 0.0 <= e - s < t.scale else 0.0 <= s - e < t.scale)
  {
    var n := InverseWithRoundingMode(fp, t, e, mode).value;
    ExactQuotient(fp, t, e);
    ExactDirect(fp, t, n);
    var q := Quotient(fp, t, e);
    RoundByIsMonotone(q, q);
    UnitGapScales(n as real, q, t.scale, t.offset, Direct(fp, t, n), e);
  }

  /** Two sides enclose all values, lie on the grid and are each less than one scale away from a value. */
  ghost predicate TightSides(fp: Fp, t: Transform, values: seq<real>, lo: Ext, hi: Ext) {
    && lo.Fin? && hi.Fin?
    && (forall v | v in values :: lo.r <= v <= hi.r)
    && (exists n: i32 :: lo.r == Direct(fp, t, n))
    && (exists n: i32 :: hi.r == Direct(fp, t, n))
    && (exists v | v in values :: v - lo.r < t.scale)
    && (exists v | v in values :: hi.r - v < t.scale)
  }

  /** In exact arithmetic the snapped sides of an extent are tight. */
  lemma SnappedSidesAreTight(fp: Fp, t: Transform, values: seq<real>, lo: Ext, hi: Ext)
    requires ExactRounding(fp) && t.scale > 0.0
    requires values != [] && IsLeast(lo, values) && IsGreatest(hi, values)
    requires Snap(fp, lo, t, Floor).Ok? && Snap(fp, hi, t, Ceil).Ok?
    ensures TightSides(fp, t, values, Snap(fp, lo, t, Floor).value, Snap(fp, hi, t, Ceil).value)
  {
    SnappedSideIsTight(fp, t, lo.r, Floor);
    SnappedSideIsTight(fp, t, hi.r, Ceil);
    assert lo.r in values && hi.r in values;
  }

  /** Coordinates around which a box can be written. With a positive scale the box is rounded outwards, so every
      quotient must be a whole unit inside. With a negative scale it is rounded inwards: quotients may be up to a
      unit outside, if not all of them are. */
  predicate BoxFits(fp: Fp, t: Transform, values: seq<real>) {
    if t.scale == 0.0 then forall v | v in values :: fp.rnd64(v - t.offset) == 0.0
    else if t.scale > 0.0 then forall v | v in values :: -2147483648.0 <= Quotient(fp, t, v) <= 2147483647.0
    else
      && (forall v | v in values :: -2147483649.0 < Quotient(fp, t, v) < 2147483648.0)
      && (values != [] ==>
            && (exists v | v in values :: -2147483648.0 <= Quotient(fp, t, v))
            && (exists v | v in values :: Quotient(fp, t, v) <= 2147483647.0))
  }

  lemma SnapSucceedsIff(fp: Fp, t: Transform, v: real)
    ensures t.scale == 0.0 ==> forall mode :: Snap(fp, Fin(v), t, mode).Ok? <==> fp.rnd64(v - t.offset) == 0.0
    ensures t.scale != 0.0 ==>
              && (Snap(fp, Fin(v), t, Floor).Ok? <==> -2147483648.0 <= Quotient(fp, t, v) < 2147483648.0)
              && (Snap(fp, Fin(v), t, Ceil).Ok? <==> -2147483649.0 < Quotient(fp, t, v) <= 2147483647.0)
  {
  }

  /** Both sides of an extent can be snapped exactly when a box fits around its coordinates. */
  lemma SidesSnapIff(fp: Fp, t: Transform, values: seq<real>, lo: Ext, hi: Ext)
    requires MonotoneRounding(fp) && IsLeast(lo, values) && IsGreatest(hi, values)
    ensures Snap(fp, lo, t, Floor).Ok? && Snap(fp, hi, t, Ceil).Ok? <==> BoxFits(fp, t, values)
  {
    hide Snap, Quotient;
    if values == [] {
      InfiniteSidesSnap(fp, t);
    } else {
      SnapSucceedsIff(fp, t, lo.r);
      SnapSucceedsIff(fp, t, hi.r);
      assert lo.r in values && hi.r in values;
      forall v | v in values ensures IsBetween(fp, t, lo.r, v, hi.r) {
        BetweenExtremes(fp, t, lo.r, v, hi.r);
      }
    }
  }

  /** Dividing keeps a coordinate between the extremes, in one order or the other. */
  predicate IsBetween(fp: Fp, t: Transform, lo: real, v: real, hi: real) {
    if t.scale == 0.0 then fp.rnd64(lo - t.offset) <= fp.rnd64(v - t.offset) <= fp.rnd64(hi - t.offset)
    else
      var a, q, b := Quotient(fp, t, lo), Quotient(fp, t, v), Quotient(fp, t, hi);
      if t.scale > 0.0 then a <= q <= b else b <= q <= a
  }

  lemma BetweenExtremes(fp: Fp, t: Transform, lo: real, v: real, hi: real)
    requires MonotoneRounding(fp) && lo <= v <= hi
    ensures IsBetween(fp, t, lo, v, hi)
  {
    if t.scale != 0.0 {
      QuotientsAreOrdered(fp, t, lo, v);
      QuotientsAreOrdered(fp, t, v, hi);
    }
  }

  lemma InfiniteSidesSnap(fp: Fp, t: Transform)
    ensures Snap(fp, PosInf, t, Floor) == Ok(PosInf) && Snap(fp, NegInf, t, Ceil) == Ok(NegInf)
  {
  }

  /** The empty box of a header without points can always be written, as it is. */
  lemma EmptyBoxStaysEmpty(fp: Fp, t: Vector<Transform>)
    ensures var empty := Bounds(Vector(PosInf, PosInf, PosInf), Vector(NegInf, NegInf, NegInf));
            Adapt(fp, empty, t) == Ok(empty)
  {
    hide Snap;
    InfiniteSidesSnap(fp, t.x);
    InfiniteSidesSnap(fp, t.y);
    InfiniteSidesSnap(fp, t.z);
  }

  /** For coordinates that can all be stored, the box fails exactly when, with a positive scale, some quotient lies
      outside the 32-bit integers, by less than half a unit; or when, with a negative one, all of them do on one
      side. */
  lemma StorableButNotBoxedIff(fp: Fp, t: Transform, values: seq<real>)
    requires forall v | v in values :: CoordinateFits(fp, t, v)
    ensures !BoxFits(fp, t, values)
            <==> || (t.scale > 0.0
                     && exists v | v in values ::
                          var q := Quotient(fp, t, v);
                          -2147483648.5 < q < -2147483648.0 || 2147483647.0 < q < 2147483647.5)
                 || (t.scale < 0.0 && values != []
                     && ((forall v | v in values :: Quotient(fp, t, v) < -2147483648.0)
                         || (forall v | v in values :: Quotient(fp, t, v) > 2147483647.0)))
  {
    hide Quotient;
  }

  /** Every coordinate can be written and yet the box cannot: rounding up overflows where rounding to
      nearest did not. */
  lemma BoxCanOverflowWhereItsPointsDoNot(fp: Fp)
    requires ExactRounding(fp)
    ensures var t := Transform(1.0, 0.0);
            var x := 2147483647.25;
            Inverse(fp, t, x).Ok? && Snap(fp, Fin(x), t, Ceil).Err?
  {
    assert 2147483647.25 / 1.0 == 2147483647.25;
    assert RoundHalfAway(2147483647.25) == 2147483647;
    assert (-2147483647.25).Floor == -2147483648;
  }
}
