/** How far a stored point is from the point that was written, in exact arithmetic. */
module Quantisation {
  import opened Wrappers
  import opened Formats
  import opened Transforms
  import opened RawPoints
  import opened PointCodec
  import opened Points
  import opened PointRewrite

  ghost predicate ExactF32(fp: Fp) {
    forall x: real :: fp.rnd32(x) == x
  }

  /** The scale factor of scan angles is 0.006, up to what an `f32` can hold. */
  lemma ScaleFactorIs()
    ensures Abs(SCAN_ANGLE_SCALE_FACTOR - 0.006) < 0.0000000001
  {
  }

  function StepDegrees(n: i16): real {
    n as real * SCAN_ANGLE_SCALE_FACTOR
  }

  /** An angle is stored as the 16-bit number of whole steps towards zero, or the nearest such number to it. */
  predicate TruncatesTo(degrees: real, n: i16) {
    var f := SCAN_ANGLE_SCALE_FACTOR;
    var step := StepDegrees(n);
    if degrees >= 32768.0 * f then n == 32767
    else if degrees <= -32769.0 * f then n == -32768
    else Abs(step) <= Abs(degrees) < Abs(step) + f && (n > 0 ==> degrees > 0.0) && (n < 0 ==> degrees < 0.0)
  }

  lemma TruncationIs(x: real)
    ensures var n := Truncate(x);
            && Abs(n as real) <= Abs(x) < Abs(n as real) + 1.0
            && (n > 0 ==> x > 0.0) && (n < 0 ==> x < 0.0)
            && (x >= 32768.0 <==> n > 32767) && (x <= -32769.0 <==> n < -32768)
  {
  }

  /** The cast truncates a quotient that any arithmetic gives towards zero, and saturates. */
  lemma AngleOfAnyRounding(fp: Fp, degrees: real)
    ensures var q, n := fp.rnd32(degrees / SCAN_ANGLE_SCALE_FACTOR), AngleFromDegrees(fp, degrees).scaled;
            if q >= 32768.0 then n == 32767
            else if q <= -32769.0 then n == -32768
            else Abs(n as real) <= Abs(q) < Abs(n as real) + 1.0 && (n > 0 ==> q > 0.0) && (n < 0 ==> q < 0.0)
  {
    hide Truncate;
    TruncationIs(fp.rnd32(ScaleDown(degrees)));
  }

  /** The cast truncates towards zero and saturates. */
  lemma AngleIsTruncated(fp: Fp, degrees: real)
    requires ExactF32(fp)
    ensures AngleFromDegrees(fp, degrees).Scaled? && TruncatesTo(degrees, AngleFromDegrees(fp, degrees).scaled)
  {
    hide Truncate, ScaleDown, ScaleUp, TruncatesTo;
    var x := ScaleDown(degrees);
    ScaleFactorProducts(degrees);
    TruncationIs(x);
    StepsOf(degrees, x, Truncate(x));
  }

  lemma StepsOf(degrees: real, x: real, n: int)
    requires x * 12884902.0 == degrees * 2147483648.0
    requires Abs(n as real) <= Abs(x) < Abs(n as real) + 1.0 && (n > 0 ==> x > 0.0) && (n < 0 ==> x < 0.0)
    requires (x >= 32768.0 <==> n > 32767) && (x <= -32769.0 <==> n < -32768)
    ensures TruncatesTo(degrees, SaturateI16(n))
  {
  }

  /** A rank that a raw point holds is stored in an extended format by the same rule. */
  lemma RankIsTruncated(fp: Fp, rank: i8)
    requires ExactF32(fp)
    ensures TruncatesTo(rank as real, StoredScaled(fp, Rank(rank)))
  {
    AngleIsTruncated(fp, rank as real);
  }

  /** An angle is stored in a legacy format as the nearest whole degree of eight bits, away from zero in a tie. */
  predicate RanksAs(degrees: real, r: i8) {
    if degrees >= 127.5 then r == 127
    else if degrees <= -128.5 then r == -128
    else
      && degrees - 0.5 <= r as real <= degrees + 0.5
      && (r as real == degrees + 0.5 ==> degrees > 0.0)
      && (r as real == degrees - 0.5 ==> degrees < 0.0)
  }

  lemma RankIsNearest(fp: Fp, n: i16)
    requires ExactF32(fp)
    ensures RanksAs(StepDegrees(n), StoredRank(fp, Scaled(n)))
    ensures AngleDegrees(fp, Scaled(n)) == StepDegrees(n)
  {
    hide SCAN_ANGLE_SCALE_FACTOR, RanksAs, RoundHalfAway;
    RoundedRank(ScaleUp(n as real));
  }

  /** An angle as it is read back: truncated to a step, and in a legacy format rounded to a degree from there. */
  ghost predicate AngleReadAs(degrees: real, read: real, isExtended: bool) {
    exists n: i16 ::
      TruncatesTo(degrees, n) && if isExtended then read == StepDegrees(n) else IsRankOf(StepDegrees(n), read)
  }

  ghost predicate IsRankOf(degrees: real, read: real) {
    exists r: i8 :: RanksAs(degrees, r) && read == r as real
  }

  lemma RoundedRank(x: real)
    ensures RanksAs(x, SaturateI8(RoundHalfAway(x)))
  {
  }

  /** The angle of a raw point that is about to be stored. */
  lemma RawAngleIsTruncated(fp: Fp, p: Point, t: Vector<Transform>)
    requires ExactF32(fp) && IntoRaw(fp, p, t).Ok?
    ensures var angle := IntoRaw(fp, p, t).value.scanAngle; angle.Scaled? && TruncatesTo(p.scanAngle, angle.scaled)
  {
    hide Inverse, FlagsOf, AngleFromDegrees, TruncatesTo;
    AngleIsTruncated(fp, p.scanAngle);
  }

  lemma StoredCoordinateIsNear(fp: Fp, t: Transform, x: real)
    requires ExactRounding(fp) && t.scale != 0.0 && Inverse(fp, t, x).Ok?
    ensures Abs(Direct(fp, t, Inverse(fp, t, x).value) - x) <= Abs(t.scale) / 2.0
  {
    hide Direct, Quotient, RoundBy;
    var n := Inverse(fp, t, x).value;
    InverseIsNearQuotient(fp, t, x);
    ExactQuotient(fp, t, x);
    ExactDirect(fp, t, n);
    HalfStep(Quotient(fp, t, x), n as real, t.scale, x - t.offset);
  }

  lemma HalfStep(q: real, n: real, scale: real, distance: real)
    requires q * scale == distance && q - 0.5 <= n <= q + 0.5
    ensures Abs(scale * n - distance) <= Abs(scale) / 2.0
  {
    var size := Abs(scale);
    Products(size, 0.5 - (n - q));
    Products(size, 0.5 + (n - q));
    assert scale * n - distance == scale * (n - q);
  }

  lemma Products(a: real, b: real)
    requires a >= 0.0 && b >= 0.0
    ensures a * b >= 0.0
  {
  }

  /** A point is read back with every coordinate within half a scale of the written one, and with its scan angle
      truncated to a step, and in a legacy format rounded to a degree from there. */
  lemma RereadIsNear(fp: Fp, p: Point, f: Format, t: Vector<Transform>)
    requires ExactRounding(fp) && ExactF32(fp) && t.x.scale != 0.0 && t.y.scale != 0.0 && t.z.scale != 0.0
    requires Matches(p, f) && RecordOf(fp, p, f, t).Ok?
    ensures var q := Reread(fp, p, f, t);
            && Abs(q.x - p.x) <= Abs(t.x.scale) / 2.0
            && Abs(q.y - p.y) <= Abs(t.y.scale) / 2.0
            && Abs(q.z - p.z) <= Abs(t.z.scale) / 2.0
            && AngleReadAs(p.scanAngle, q.scanAngle, f.isExtended)
  {
    hide Reread, RecordOf, Matches, Direct, Inverse, ExactRounding, ExactF32, TruncatesTo, RanksAs, StoredRank, FlagsOf;
    hide AngleDegrees, AngleFromDegrees, StepDegrees, Abs, OptionalBlock, NirValue, GetWaveform;
    PointReadsBack(fp, p, f, t);
    var raw := IntoRaw(fp, p, t).value;
    StoredCoordinateIsNear(fp, t.x, p.x);
    StoredCoordinateIsNear(fp, t.y, p.y);
    StoredCoordinateIsNear(fp, t.z, p.z);
    AngleIsTruncated(fp, p.scanAngle);
    RankIsNearest(fp, raw.scanAngle.scaled);
    var n := raw.scanAngle.scaled;
    assert TruncatesTo(p.scanAngle, n);
    if !f.isExtended {
      assert RanksAs(StepDegrees(n), StoredRank(fp, Scaled(n)));
      assert IsRankOf(StepDegrees(n), StoredRank(fp, Scaled(n)) as real);
    }
  }
}
