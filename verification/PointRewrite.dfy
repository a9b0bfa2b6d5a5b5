/** Reading a record and writing it back, and writing a point and reading it back. */
module PointRewrite {
  import opened Wrappers
  import opened Bytes
  import opened Formats
  import opened Transforms
  import opened RawPoints
  import opened PointCodec
  import opened Points

  function Abs(x: real): real {
    if x < 0.0 then -x else x
  }

  /** The range of angles in degrees and in scaled units, far from the smallest and largest `f32`. */
  predicate InAngleRange(x: real) {
    x == 0.0 || 0.001 <= Abs(x) <= 100000.0
  }

  /** In that range an `f32` result is within a thousandth of the real one. IEEE rounding is ten thousand
      times closer. */
  ghost predicate FaithfulF32(fp: Fp) {
    forall x: real | InAngleRange(x) :: Abs(fp.rnd32(x) - x) <= Abs(x) / 1000.0
  }

  /** The error bound of the detour, with the products by the scale factor written out. */
  lemma RankDrift(n: real, exact: real, quotient: real, scaled: real, product: real, degrees: real)
    requires Abs(n) <= 128.0 && exact * 12884902.0 == n * 2147483648.0
    requires Abs(quotient - exact) <= Abs(exact) / 1000.0 && Abs(scaled - quotient) < 1.0
    requires product * 2147483648.0 == scaled * 12884902.0
    ensures Abs(scaled) < 32767.0
    ensures Abs(degrees - product) <= Abs(product) / 1000.0 ==> Abs(degrees - n) < 0.5
  {
    assert Abs(exact) <= 21334.0;
    assert Abs(scaled - exact) <= 23.0;
    assert Abs(product - n) <= 0.14;
  }

  lemma ScaleFactorProducts(x: real)
    ensures ScaleDown(x) * 12884902.0 == x * 2147483648.0
    ensures ScaleUp(x) * 2147483648.0 == x * 12884902.0
  {
  }

  lemma RankIsInRange(n: i8, exact: real)
    requires exact * 12884902.0 == n as real * 2147483648.0
    ensures InAngleRange(exact) && Abs(n as real) <= 128.0
  {
  }

  lemma ScaledIsInRange(scaled: int, product: real)
    requires Abs(scaled as real) < 32767.0 && product * 2147483648.0 == scaled as real * 12884902.0
    ensures InAngleRange(product) && SaturateI16(scaled) == scaled
  {
  }

  lemma RoundingIsNear(x: real, n: int)
    ensures Abs(Truncate(x) as real - x) < 1.0
    ensures Abs(x - n as real) < 0.5 ==> RoundHalfAway(x) == n
  {
  }

  /** Every scan-angle rank survives the detour over scaled angles. */
  lemma RankSurvives(fp: Fp, n: i8)
    requires FaithfulF32(fp)
    ensures StoredRank(fp, AngleFromDegrees(fp, n as real)) == n
  {
    hide Truncate, RoundHalfAway, Abs, InAngleRange, ScaleUp, ScaleDown, SaturateI16;
    var exact := ScaleDown(n as real);
    var quotient := fp.rnd32(exact);
    var scaled := Truncate(quotient);
    var product := ScaleUp(scaled as real);
    var degrees := fp.rnd32(product);
    ScaleFactorProducts(n as real);
    ScaleFactorProducts(scaled as real);
    RoundingIsNear(quotient, 0);
    RankIsInRange(n, exact);
    RankDrift(n as real, exact, quotient, scaled as real, product, degrees);
    ScaledIsInRange(scaled, product);
    RoundingIsNear(degrees, n);
  }

  predicate CoordinateSurvives(fp: Fp, t: Transform, n: i32) {
    Inverse(fp, t, Direct(fp, t, n)) == Ok(n)
  }

  predicate CoordinatesSurvive(fp: Fp, p: RawPoint, t: Vector<Transform>) {
    CoordinateSurvives(fp, t.x, p.x) && CoordinateSurvives(fp, t.y, p.y) && CoordinateSurvives(fp, t.z, p.z)
  }

  predicate ScaledAngleSurvives(fp: Fp, n: i16) {
    AngleFromDegrees(fp, AngleDegrees(fp, Scaled(n))) == Scaled(n)
  }

  /** Read a record, make a point of it, and write that point. */
  function Rewrite(fp: Fp, s: seq<byte>, f: Format, t: Vector<Transform>): Result<seq<byte>>
    requires |s| == f.Len()
  {
    var raw :- IntoRaw(fp, NewPoint(fp, DecodePoint(s, f), t), t);
    assert |raw.extraBytes| == f.extraBytes by {
      DecodeThenEncode(fp, s, f);
    }
    EncodePoint(fp, raw, f)
  }

  /** The flag bytes that the detour over a point leaves alone: any class but 28 in the
      two-byte layout, any class but 12 in the three-byte layout. */
  predicate ClassSurvives(flags: Flags) {
    if flags.TwoByte? then flags.b & 0x1F != 28 else flags.c != OVERLAP_CLASSIFICATION_CODE
  }

  lemma {:induction false} JoinIsInjective(xs: seq<seq<byte>>, ys: seq<seq<byte>>, widths: seq<nat>,
                                           r: seq<byte>, s: seq<byte>)
    requires HaveWidths(xs, widths) && HaveWidths(ys, widths)
    ensures Join(xs) + r == Join(ys) + s <==> xs == ys && r == s
  {
    SplitJoin(xs, widths, r);
    SplitJoin(ys, widths, s);
    if Join(xs) + r == Join(ys) + s {
      assert (Join(xs) + r)[Sum(widths)..] == r && (Join(ys) + s)[Sum(widths)..] == s;
    }
  }

  /** Two records that differ in their first nine fields and in the order of two others. */
  lemma RecordsEqual(xs: seq<seq<byte>>, ys: seq<seq<byte>>, widths: seq<nat>,
                     a: seq<byte>, b: seq<byte>, post: seq<byte>)
    requires HaveWidths(xs, widths) && HaveWidths(ys, widths)
    ensures Join(xs) + (b + a) + post == Join(ys) + (a + b) + post <==> xs == ys && b + a == a + b
  {
    var r, s := b + a + post, a + b + post;
    assert Join(xs) + (b + a) + post == Join(xs) + r;
    assert Join(ys) + (a + b) + post == Join(ys) + s;
    JoinIsInjective(xs, ys, widths, r, s);
    assert r[..|a| + |b|] == b + a && s[..|a| + |b|] == a + b;
  }

  lemma I32BytesInjective(n: i32, m: i32)
    ensures I32Bytes(n) == I32Bytes(m) <==> n == m
  {
    SignedReadsBack(n, 0, 0);
    SignedReadsBack(m, 0, 0);
  }

  lemma OctetsInjective(a: bv8, b: bv8)
    ensures Octet(a) == Octet(b) <==> a == b
  {
    BitsOfOctet(a);
    BitsOfOctet(b);
  }

  /** What the detour over a point does to the flag bytes. */
  lemma FlagBytesRewritten(fp: Fp, raw: RawPoint, t: Vector<Transform>, f: Format)
    requires raw.flags.ThreeByte? == f.isExtended
    ensures var flags := FlagsOf(NewPoint(fp, raw, t));
            && flags.Ok? && flags.value.Stored(f.isExtended).Ok?
            && (flags.value.Stored(f.isExtended) == raw.flags.Stored(f.isExtended) <==> ClassSurvives(raw.flags))
  {
    hide Octet;
    if f.isExtended {
      ThreeByteFlagsRewritten(fp, raw, t);
      OctetsInjective(raw.flags.c, 1);
    } else {
      TwoByteFlagsRewritten(fp, raw, t);
      OctetsInjective(raw.flags.b - 16, raw.flags.b);
      assert raw.flags.b - 16 != raw.flags.b;
    }
  }

  /** What it does to the angle and user data. */
  lemma AngleRewritten(fp: Fp, raw: RawPoint, back: RawPoint, f: Format)
    requires FaithfulF32(fp) && raw.scanAngle.Scaled? == f.isExtended
    requires back.userData == raw.userData
    requires back.scanAngle == AngleFromDegrees(fp, AngleDegrees(fp, raw.scanAngle))
    ensures AngleAndUserData(fp, back, f.isExtended) == AngleAndUserData(fp, raw, f.isExtended)
            <==> (f.isExtended ==> ScaledAngleSurvives(fp, raw.scanAngle.scaled))
  {
    if f.isExtended {
      var n, m := back.scanAngle.scaled, raw.scanAngle.scaled;
      SignedReadsBack(0, n, 0);
      SignedReadsBack(0, m, 0);
      assert AngleAndUserData(fp, back, true)[1..] == I16Bytes(n);
      assert AngleAndUserData(fp, raw, true)[1..] == I16Bytes(m);
    } else {
      RankSurvives(fp, raw.scanAngle.rank);
    }
  }

  predicate Rewritable(fp: Fp, raw: RawPoint, f: Format, t: Vector<Transform>) {
    && CoordinatesSurvive(fp, raw, t)
    && ClassSurvives(raw.flags)
    && (raw.scanAngle.Scaled? ==> ScaledAngleSurvives(fp, raw.scanAngle.scaled))
    && OrderBlind(f, OptionalBlock(raw, f))
  }

  /** Reading a record and writing it back reproduces its bytes exactly when its coordinates,
      class and scaled angle survive and the order of NIR and waveform cannot be seen. */
  lemma RewriteIsIdentical(fp: Fp, s: seq<byte>, f: Format, t: Vector<Transform>)
    requires |s| == f.Len() && FaithfulF32(fp)
    ensures Rewrite(fp, s, f, t) == Ok(s) <==> Rewritable(fp, DecodePoint(s, f), f, t)
  {
    hide PointFields, AngleAndUserData, Flags.Stored, Join, PointFromFields, Sum, Octet, Bits, FlagsOf, FaithfulF32;
    hide Inverse, Direct, AngleFromDegrees, AngleDegrees, ScaledAngleSurvives, ClassSurvives, OrderBlind, OptionalBlock;
    ReadWidthsSum(f);
    var raw := DecodePoint(s, f);
    var c := Split(s, ReadWidths(f));
    DecodeThenEncode(fp, s, f);
    FieldsOfRead(fp, c, f);
    JoinSplit(s, ReadWidths(f));
    assert s[..|s|] == s;
    FlagBytesRewritten(fp, raw, t, f);
    var into := IntoRaw(fp, NewPoint(fp, raw, t), t);
    if into.Ok? {
      var back := into.value;
      AngleRewritten(fp, raw, back, f);
      var flags := back.flags.Stored(f.isExtended).value;
      RewrittenFields(fp, raw, back, f, c, flags);
    }
  }

  lemma RewrittenFields(fp: Fp, raw: RawPoint, back: RawPoint, f: Format, c: seq<seq<byte>>, flags: seq<byte>)
    requires HaveWidths(c, ReadWidths(f)) && raw == PointFromFields(c, f)
    requires back == raw.(x := back.x, y := back.y, z := back.z, flags := back.flags, scanAngle := back.scanAngle)
    requires back.flags.Stored(f.isExtended) == Ok(flags)
    ensures |c| == 12
    ensures Join(PointFields(fp, back, f, flags)) == Join(c)
            <==> back.x == raw.x && back.y == raw.y && back.z == raw.z
                 && Ok(flags) == raw.flags.Stored(f.isExtended)
                 && AngleAndUserData(fp, back, f.isExtended) == AngleAndUserData(fp, raw, f.isExtended)
                 && OrderBlind(f, OptionalBlock(raw, f))
  {
    FieldsOfRead(fp, c, f);
    FlagsAndAngleOfRead(fp, c, f);
    SameLeadingFields(fp, raw, back, f, c, flags);
    var d := PointFields(fp, back, f, flags);
    JoinAround(c);
    JoinAround(d);
    RecordsEqual(d[..9], c[..9], ReadWidths(f)[..9], c[9], c[10], c[11]);
    OrderIsVisible(c, f, raw);
  }

  lemma SameLeadingFields(fp: Fp, raw: RawPoint, back: RawPoint, f: Format, c: seq<seq<byte>>, flags: seq<byte>)
    requires HaveWidths(c, ReadWidths(f)) && |c| == 12
    requires PointFields(fp, raw, f, c[4]) == c[9 := c[10]][10 := c[9]]
    requires back == raw.(x := back.x, y := back.y, z := back.z, flags := back.flags, scanAngle := back.scanAngle)
    requires back.flags.Stored(f.isExtended) == Ok(flags) && raw.flags.Stored(f.isExtended) == Ok(c[4])
    ensures var d, w := PointFields(fp, back, f, flags), ReadWidths(f);
            && |d| == |w| == 12
            && d[9] == c[10] && d[10] == c[9] && d[11] == c[11]
            && HaveWidths(c[..9], w[..9]) && HaveWidths(d[..9], w[..9])
            && (d[..9] == c[..9]
                <==> back.x == raw.x && back.y == raw.y && back.z == raw.z
                     && Ok(flags) == raw.flags.Stored(f.isExtended)
                     && AngleAndUserData(fp, back, f.isExtended) == AngleAndUserData(fp, raw, f.isExtended))
  {
    hide PointFields, I32Bytes, AngleAndUserData, Flags.Stored;
    StoredLength(back.flags, f.isExtended);
    I32BytesInjective(back.x, raw.x);
    I32BytesInjective(back.y, raw.y);
    I32BytesInjective(back.z, raw.z);
    ChangedFields(fp, raw, back, f, c[4], flags);
    var d, e := PointFields(fp, back, f, flags), PointFields(fp, raw, f, c[4]);
    assert d[..9] == c[..9] <==> d[0] == e[0] && d[1] == e[1] && d[2] == e[2] && d[4] == e[4] && d[5] == e[5];
  }

  lemma ChangedFields(fp: Fp, raw: RawPoint, back: RawPoint, f: Format, stored: seq<byte>, flags: seq<byte>)
    requires back == raw.(x := back.x, y := back.y, z := back.z, flags := back.flags, scanAngle := back.scanAngle)
    ensures var e := PointFields(fp, raw, f, stored);
            && |e| == 12
            && e[0] == I32Bytes(raw.x) && e[1] == I32Bytes(raw.y) && e[2] == I32Bytes(raw.z) && e[4] == stored
            && e[5] == AngleAndUserData(fp, raw, f.isExtended)
            && |AngleAndUserData(fp, back, f.isExtended)| == |e[5]|
            && PointFields(fp, back, f, flags)
               == e[0 := I32Bytes(back.x)][1 := I32Bytes(back.y)][2 := I32Bytes(back.z)][4 := flags]
                   [5 := AngleAndUserData(fp, back, f.isExtended)]
  {
    hide U16Bytes, U32Bytes, U64Bytes, I32Bytes, Join, StoredRank, StoredScaled;
  }

  lemma OrderIsVisible(c: seq<seq<byte>>, f: Format, raw: RawPoint)
    requires HaveWidths(c, ReadWidths(f)) && raw == PointFromFields(c, f)
    ensures |c| == 12 && (c[10] + c[9] == c[9] + c[10] <==> OrderBlind(f, OptionalBlock(raw, f)))
  {
    var w := ReadWidths(f);
    assert |c[9]| == w[9] && |c[10]| == w[10];
    assert NirBytes(raw, f) == c[10] && WaveformBytes(raw, f) == c[9];
    var a: seq<byte>, b: seq<byte> := c[9], c[10];
    if f.hasNir && f.hasWaveform {
      CommuteOnlyIfConstant(b, a);
    } else {
      assert a == [] || b == [];
      assert a + b == b + a;
    }
  }

  /** A point that was just read has the attributes of its format, so that a writer takes it, exactly when its NIR is
      not the 0 that is read as absent. */
  lemma ReadPointMatchesIff(fp: Fp, s: seq<byte>, f: Format, t: Vector<Transform>)
    requires |s| == f.Len()
    ensures Matches(NewPoint(fp, DecodePoint(s, f), t), f) <==> (f.hasNir ==> DecodePoint(s, f).nir.Some?)
  {
    hide DecodePoint, Direct, AngleDegrees, Flags.ClearOverlapClass;
    DecodeThenEncode(fp, s, f);
  }

  lemma ExactAngleSurvives(fp: Fp, n: i16)
    requires forall x: real :: fp.rnd32(x) == x
    ensures ScaledAngleSurvives(fp, n)
  {
    var x := n as real;
    ScaleFactorProducts(x);
    ScaleFactorProducts(ScaleUp(x));
    assert ScaleDown(ScaleUp(x)) == x;
  }

  /** In exact arithmetic, for every format: only class 28 in the two-byte layout, class 12 in the three-byte
      layout and a visible order of NIR and waveform keep a record from being reproduced. */
  lemma ExactRewriteIsIdentical(fp: Fp, s: seq<byte>, f: Format, t: Vector<Transform>)
    requires |s| == f.Len()
    requires ExactRounding(fp) && (forall x: real :: fp.rnd32(x) == x)
    requires t.x.scale != 0.0 && t.y.scale != 0.0 && t.z.scale != 0.0
    ensures Rewrite(fp, s, f, t) == Ok(s)
            <==> ClassSurvives(DecodePoint(s, f).flags) && OrderBlind(f, OptionalBlock(DecodePoint(s, f), f))
  {
    hide DecodePoint, Rewrite, OptionalBlock, OrderBlind, ClassSurvives, ScaledAngleSurvives, Inverse, Direct;
    var raw := DecodePoint(s, f);
    RewriteIsIdentical(fp, s, f, t);
    ExactInverseOfDirect(fp, t.x, raw.x);
    ExactInverseOfDirect(fp, t.y, raw.y);
    ExactInverseOfDirect(fp, t.z, raw.z);
    if raw.scanAngle.Scaled? {
      ExactAngleSurvives(fp, raw.scanAngle.scaled);
    }
  }

  /** For the legacy formats in exact arithmetic only class 28 is changed. */
  lemma LegacyRewriteIsIdentical(fp: Fp, s: seq<byte>, f: Format, t: Vector<Transform>)
    requires |s| == f.Len() && !f.isExtended && !f.hasNir
    requires FaithfulF32(fp) && ExactRounding(fp) && t.x.scale != 0.0 && t.y.scale != 0.0 && t.z.scale != 0.0
    ensures Rewrite(fp, s, f, t) == Ok(s) <==> DecodePoint(s, f).flags.b & 0x1F != 28
  {
    RewriteIsIdentical(fp, s, f, t);
    var raw := DecodePoint(s, f);
    ExactInverseOfDirect(fp, t.x, raw.x);
    ExactInverseOfDirect(fp, t.y, raw.y);
    ExactInverseOfDirect(fp, t.z, raw.z);
  }

  // Writing a point and reading it back

  /** The raw point in the layout of the format; it is stored as the same bytes. */
  function Reshaped(fp: Fp, raw: RawPoint, f: Format): RawPoint
    requires raw.flags.ThreeByte? && raw.scanAngle.Scaled?
  {
    if f.isExtended || raw.flags.ToTwoBytes().Err? then raw
    else
      var t := raw.flags.ToTwoBytes().value;
      raw.(flags := TwoByte(t.0, t.1), scanAngle := Rank(StoredRank(fp, raw.scanAngle)))
  }

  lemma ReshapedIsStoredTheSame(fp: Fp, raw: RawPoint, f: Format)
    requires raw.flags.ThreeByte? && raw.scanAngle.Scaled? && |raw.extraBytes| == f.extraBytes
    ensures EncodePoint(fp, Reshaped(fp, raw, f), f) == EncodePoint(fp, raw, f)
  {
    hide Octet, U16Bytes, U32Bytes, U64Bytes, Join;
    var back := Reshaped(fp, raw, f);
    if !f.isExtended && raw.flags.ToTwoBytes().Ok? {
      var stored := raw.flags.Stored(false).value;
      ChangedFields(fp, raw, back, f, stored, stored);
      assert AngleAndUserData(fp, back, false) == AngleAndUserData(fp, raw, false);
      assert PointFields(fp, back, f, stored) == PointFields(fp, raw, f, stored);
    }
  }

  /** What a reader gets for a written point. */
  function Reread(fp: Fp, p: Point, f: Format, t: Vector<Transform>): Point
    requires Matches(p, f) && RecordOf(fp, p, f, t).Ok?
  {
    NewPoint(fp, DecodePoint(RecordOf(fp, p, f, t).value, f), t)
  }

  /** The written point after quantisation, merging of the overlap class and recutting of NIR and waveform. */
  function AsStored(fp: Fp, p: Point, f: Format, t: Vector<Transform>, raw: RawPoint): Point
    requires IntoRaw(fp, p, t) == Ok(raw) && Matches(p, f)
    requires |OptionalBlock(raw, f)| == WaveWidth(f) + (if f.hasNir then 2 else 0)
  {
    var code := p.classification;
    var overlap := p.isOverlap || code == 12;
    p.(x := Direct(fp, t.x, raw.x),
       y := Direct(fp, t.y, raw.y),
       z := Direct(fp, t.z, raw.z),
       classification := if (if f.isExtended then code == 12 else overlap) then 1 else code,
       isOverlap := if f.isExtended then p.isOverlap else overlap || code == 28,
       scanAngle := if f.isExtended then AngleDegrees(fp, raw.scanAngle) else StoredRank(fp, raw.scanAngle) as real,
       waveform := if f.hasWaveform then Some(GetWaveform(OptionalBlock(raw, f)[..29])) else None,
       nir := if f.hasNir then NirValue(OptionalBlock(raw, f)[WaveWidth(f)..]) else None)
  }

  /** A written point is read back with quantised coordinates and angle, its overlap class merged
      as the layout requires, and everything else as it was. */
  lemma PointReadsBack(fp: Fp, p: Point, f: Format, t: Vector<Transform>)
    requires Matches(p, f) && RecordOf(fp, p, f, t).Ok?
    ensures IntoRaw(fp, p, t).Ok?
    ensures |OptionalBlock(IntoRaw(fp, p, t).value, f)| == WaveWidth(f) + (if f.hasNir then 2 else 0)
    ensures Reread(fp, p, f, t) == AsStored(fp, p, f, t, IntoRaw(fp, p, t).value)
  {
    hide DecodePoint, RecordOf, IntoRaw, NewPoint, AsStored, Reshaped, OptionalBlock, GetWaveform, FlagsOf;
    RecordDecodes(fp, p, f, t);
    var raw := IntoRaw(fp, p, t).value;
    var d := DecodePoint(RecordOf(fp, p, f, t).value, f);
    StoredPointIsNew(fp, p, f, t, raw, d);
  }

  lemma StoredPointIsNew(fp: Fp, p: Point, f: Format, t: Vector<Transform>, raw: RawPoint, d: RawPoint)
    requires IntoRaw(fp, p, t) == Ok(raw) && Matches(p, f)
    requires FlagsOf(p) == Ok(raw.flags) && raw.flags.ThreeByte? && raw.scanAngle.Scaled?
    requires f.isExtended || raw.flags.ToTwoBytes().Ok?
    requires |OptionalBlock(raw, f)| == WaveWidth(f) + (if f.hasNir then 2 else 0)
    requires d == Reshaped(fp, raw, f).(
                    waveform := if f.hasWaveform then Some(GetWaveform(OptionalBlock(raw, f)[..29])) else None,
                    nir := if f.hasNir then NirValue(OptionalBlock(raw, f)[WaveWidth(f)..]) else None)
    ensures NewPoint(fp, d, t) == AsStored(fp, p, f, t, raw)
  {
    hide FlagsOf, Direct, StoredRank, GetWaveform, NirValue, OptionalBlock, Inverse;
    hide Flags.ToTwoBytes, Flags.ClearOverlapClass, Flags.ReturnNumber, Flags.NumberOfReturns, Flags.LeftToRight;
    hide Flags.IsEdgeOfFlightLine, Flags.IsSynthetic, Flags.IsKeyPoint, Flags.IsWithheld, Flags.IsOverlap;
    hide Flags.ClassCode, Flags.ScannerChannel;
    FlagsAfterReading(p, raw.flags, Reshaped(fp, raw, f).flags);
  }

  lemma RecordDecodes(fp: Fp, p: Point, f: Format, t: Vector<Transform>)
    requires Matches(p, f) && RecordOf(fp, p, f, t).Ok?
    ensures var into := IntoRaw(fp, p, t);
            && into.Ok? && into.value.flags.ThreeByte? && into.value.scanAngle.Scaled?
            && FlagsOf(p) == Ok(into.value.flags)
            && (f.isExtended || into.value.flags.ToTwoBytes().Ok?)
            && |OptionalBlock(into.value, f)| == WaveWidth(f) + (if f.hasNir then 2 else 0)
            && DecodePoint(RecordOf(fp, p, f, t).value, f)
               == Reshaped(fp, into.value, f).(
                    waveform := if f.hasWaveform then Some(GetWaveform(OptionalBlock(into.value, f)[..29])) else None,
                    nir := if f.hasNir then NirValue(OptionalBlock(into.value, f)[WaveWidth(f)..]) else None)
  {
    hide Octet, Bits, PointFields, Join, FlagsOf, Direct, StoredRank;
    var raw := IntoRaw(fp, p, t).value;
    FlagsReadBack(p, raw.flags);
    var shaped := Reshaped(fp, raw, f);
    ReshapedIsStoredTheSame(fp, raw, f);
    assert Shaped(shaped, f);
    DecodeOfEncoded(fp, shaped, f);
    assert OptionalBlock(shaped, f) == OptionalBlock(raw, f);
  }

  lemma FlagsAfterReading(p: Point, flags: Flags, shaped: Flags)
    requires FlagsOf(p) == Ok(flags)
    requires shaped == flags
             || (flags.ToTwoBytes() == Ok((shaped.a, shaped.b)) && shaped == TwoByte(shaped.a, shaped.b))
    ensures var c := shaped.ClearOverlapClass();
            && c.ReturnNumber() == p.returnNumber && c.NumberOfReturns() == p.numberOfReturns
            && c.LeftToRight() == p.leftToRight && c.IsEdgeOfFlightLine() == p.isEdgeOfFlightLine
            && c.IsSynthetic() == p.isSynthetic && c.IsKeyPoint() == p.isKeyPoint
            && c.IsWithheld() == p.isWithheld && c.ScannerChannel() == p.scannerChannel
            && (shaped.ThreeByte? ==> shaped.IsOverlap() == p.isOverlap
                                      && c.ClassCode() == if p.classification == 12 then 1 else p.classification)
            && (shaped.TwoByte? ==>
                  && shaped.IsOverlap() == (p.isOverlap || p.classification == 12 || p.classification == 28)
                  && c.ClassCode() == if p.isOverlap || p.classification == 12 then 1 else p.classification)
  {
    FlagsReadBack(p, flags);
    ClearingKeepsOtherFlags(shaped);
    if shaped.TwoByte? {
      TwoByteFlagsReadBack(flags, shaped.a, shaped.b);
    }
  }
}
