/** Points as users see them: conversion from and to raw points. */
module Points {
  import opened Wrappers
  import opened Bytes
  import opened Formats
  import opened Transforms
  import opened RawPoints
  import opened PointCodec

  /** The class is held as its code; scan angles are held as the real value of the `f32`. */
  datatype Point = Point(
    x: real,
    y: real,
    z: real,
    intensity: u16,
    returnNumber: bv8,
    numberOfReturns: bv8,
    leftToRight: bool,
    isEdgeOfFlightLine: bool,
    classification: bv8,
    isSynthetic: bool,
    isKeyPoint: bool,
    isWithheld: bool,
    isOverlap: bool,
    scannerChannel: bv8,
    scanAngle: real,
    userData: u8,
    pointSourceId: u16,
    gpsTime: Option<u64>,
    color: Option<Color>,
    waveform: Option<Waveform>,
    nir: Option<u16>,
    extraBytes: seq<byte>)

  /** Overlap is sampled before the overlap class is cleared. */
  function NewPoint(fp: Fp, raw: RawPoint, t: Vector<Transform>): (p: Point)
    ensures p.classification != OVERLAP_CLASSIFICATION_CODE
  {
    var flags := raw.flags.ClearOverlapClass();
    Point(
      Direct(fp, t.x, raw.x), Direct(fp, t.y, raw.y), Direct(fp, t.z, raw.z),
      raw.intensity,
      flags.ReturnNumber(), flags.NumberOfReturns(), flags.LeftToRight(), flags.IsEdgeOfFlightLine(),
      flags.ClassCode(), flags.IsSynthetic(), flags.IsKeyPoint(), flags.IsWithheld(),
      raw.flags.IsOverlap(),
      flags.ScannerChannel(),
      AngleDegrees(fp, raw.scanAngle),
      raw.userData, raw.pointSourceId, raw.gpsTime, raw.color, raw.waveform, raw.nir, raw.extraBytes)
  }

  function FlagsOf(p: Point): Result<Flags> {
    if p.returnNumber > 15 then Err(InvalidReturnNumber(Octet(p.returnNumber)))
    else if p.numberOfReturns > 15 then Err(InvalidReturnNumber(Octet(p.numberOfReturns)))
    else if p.scannerChannel > 3 then Err(InvalidScannerChannel(Octet(p.scannerChannel)))
    else
      var a := (p.numberOfReturns << 4) + p.returnNumber;
      var b := (p.scannerChannel << 4)
               + (if p.isSynthetic then 1 else 0)
               + (if p.isKeyPoint then 2 else 0)
               + (if p.isWithheld then 4 else 0)
               + (if p.isOverlap then 8 else 0)
               + (if p.leftToRight then 64 else 0)
               + (if p.isEdgeOfFlightLine then 128 else 0);
      Ok(ThreeByte(a, b, p.classification))
  }

  function IntoRaw(fp: Fp, p: Point, t: Vector<Transform>): (r: Result<RawPoint>)
    ensures r.Ok? ==> r.value.extraBytes == p.extraBytes
  {
    var x :- Inverse(fp, t.x, p.x);
    var y :- Inverse(fp, t.y, p.y);
    var z :- Inverse(fp, t.z, p.z);
    var flags :- FlagsOf(p);
    Ok(RawPoint(x, y, z, p.intensity, flags, AngleFromDegrees(fp, p.scanAngle), p.userData, p.pointSourceId,
                p.gpsTime, p.color, p.waveform, p.nir, p.extraBytes))
  }

  predicate Matches(p: Point, f: Format) {
    && p.gpsTime.Some? == f.hasGpsTime
    && p.color.Some? == f.hasColor
    && p.waveform.Some? == f.hasWaveform
    && p.nir.Some? == f.hasNir
    && |p.extraBytes| == f.extraBytes
  }

  /** The record a point is stored as. */
  function RecordOf(fp: Fp, p: Point, f: Format, t: Vector<Transform>): (r: Result<seq<byte>>)
    requires Matches(p, f)
    ensures r.Ok? ==> |r.value| == f.Len()
  {
    var raw :- IntoRaw(fp, p, t);
    var r := EncodePoint(fp, raw, f);
    if r.Ok? then EncodedLength(fp, raw, f); r else r
  }

  // Flag bytes through a point

  lemma ClearingKeepsOtherFlags(flags: Flags)
    ensures var c := flags.ClearOverlapClass();
            && c.TwoByte? == flags.TwoByte?
            && c.ReturnNumber() == flags.ReturnNumber() && c.NumberOfReturns() == flags.NumberOfReturns()
            && c.LeftToRight() == flags.LeftToRight() && c.IsEdgeOfFlightLine() == flags.IsEdgeOfFlightLine()
            && c.IsSynthetic() == flags.IsSynthetic() && c.IsKeyPoint() == flags.IsKeyPoint()
            && c.IsWithheld() == flags.IsWithheld() && c.ScannerChannel() == flags.ScannerChannel()
            && c.ClassCode() == if flags.ClassCode() == OVERLAP_CLASSIFICATION_CODE then UNCLASSIFIED
                                else flags.ClassCode()
  {
  }

  /** The flags of a written point as they are read back, for each layout. */
  lemma FlagsReadBack(p: Point, flags: Flags)
    requires FlagsOf(p) == Ok(flags)
    ensures flags.ThreeByte?
    ensures && flags.ReturnNumber() == p.returnNumber && flags.NumberOfReturns() == p.numberOfReturns
            && flags.LeftToRight() == p.leftToRight && flags.IsEdgeOfFlightLine() == p.isEdgeOfFlightLine
            && flags.IsSynthetic() == p.isSynthetic && flags.IsKeyPoint() == p.isKeyPoint
            && flags.IsWithheld() == p.isWithheld && flags.IsOverlap() == p.isOverlap
            && flags.ScannerChannel() == p.scannerChannel && flags.ClassCode() == p.classification
  {
  }

  lemma ThreeBytesRecomposed(flags: Flags)
    requires flags.ThreeByte?
    ensures (flags.NumberOfReturns() << 4) + flags.ReturnNumber() == flags.a
    ensures (flags.ScannerChannel() << 4)
            + (if flags.IsSynthetic() then 1 else 0) + (if flags.IsKeyPoint() then 2 else 0)
            + (if flags.IsWithheld() then 4 else 0) + (if flags.IsOverlap() then 8 else 0)
            + (if flags.LeftToRight() then 64 else 0) + (if flags.IsEdgeOfFlightLine() then 128 else 0)
            == flags.b
    ensures flags.ReturnNumber() <= 15 && flags.NumberOfReturns() <= 15 && flags.ScannerChannel() <= 3
    ensures flags.ClassCode() == flags.c
  {
  }

  /** Three flag bytes come back unchanged unless the class is 12, which becomes 1. */
  lemma ThreeByteFlagsRewritten(fp: Fp, raw: RawPoint, t: Vector<Transform>)
    requires raw.flags.ThreeByte?
    ensures FlagsOf(NewPoint(fp, raw, t)) == Ok(raw.flags.(c := if raw.flags.c == 12 then 1 else raw.flags.c))
  {
    hide Direct, AngleDegrees, Octet, Flags.ClearOverlapClass, Flags.ReturnNumber, Flags.NumberOfReturns;
    hide Flags.LeftToRight, Flags.IsEdgeOfFlightLine, Flags.IsSynthetic, Flags.IsKeyPoint, Flags.IsWithheld;
    hide Flags.IsOverlap, Flags.ClassCode, Flags.ScannerChannel;
    ClearingKeepsOtherFlags(raw.flags);
    ThreeBytesRecomposed(raw.flags);
  }

  lemma TwoBytesRecomposed(flags: Flags)
    requires flags.TwoByte?
    ensures (flags.NumberOfReturns() << 3) + flags.ReturnNumber() + (if flags.LeftToRight() then 64 else 0)
            + (if flags.IsEdgeOfFlightLine() then 128 else 0) == flags.a
    ensures (if flags.IsOverlap() then OVERLAP_CLASSIFICATION_CODE else flags.ClassCode())
            + (if flags.IsSynthetic() then 32 else 0) + (if flags.IsKeyPoint() then 64 else 0)
            + (if flags.IsWithheld() then 128 else 0)
            == if flags.b & 0x1F == 28 then flags.b - 16 else flags.b
    ensures flags.ReturnNumber() <= 7 && flags.NumberOfReturns() <= 7
    ensures flags.ClassCode() <= 31 && flags.ScannerChannel() == 0
    ensures flags.ClassCode() == OVERLAP_CLASSIFICATION_CODE ==> flags.IsOverlap()
  {
  }

  /** Two flag bytes come back unchanged unless the class is 28, which becomes 12. */
  lemma TwoByteFlagsRewritten(fp: Fp, raw: RawPoint, t: Vector<Transform>)
    requires raw.flags.TwoByte?
    ensures FlagsOf(NewPoint(fp, raw, t)).Ok?
    ensures FlagsOf(NewPoint(fp, raw, t)).value.ToTwoBytes()
         == Ok((raw.flags.a, if raw.flags.b & 0x1F == 28 then raw.flags.b - 16 else raw.flags.b))
  {
    hide Direct, AngleDegrees, Octet, Flags.ClearOverlapClass, Flags.ReturnNumber, Flags.NumberOfReturns;
    hide Flags.LeftToRight, Flags.IsEdgeOfFlightLine, Flags.IsSynthetic, Flags.IsKeyPoint, Flags.IsWithheld;
    hide Flags.IsOverlap, Flags.ClassCode, Flags.ScannerChannel;
    ClearingKeepsOtherFlags(raw.flags);
    TwoBytesRecomposed(raw.flags);
    var p := NewPoint(fp, raw, t);
    FlagsReadBack(p, FlagsOf(p).value);
  }

  lemma TwoByteFlagsReadBack(flags: Flags, a: bv8, b: bv8)
    requires flags.ThreeByte? && flags.ToTwoBytes() == Ok((a, b))
    ensures var two := TwoByte(a, b);
            && two.ReturnNumber() == flags.ReturnNumber() && two.NumberOfReturns() == flags.NumberOfReturns()
            && two.LeftToRight() == flags.LeftToRight() && two.IsEdgeOfFlightLine() == flags.IsEdgeOfFlightLine()
            && two.IsSynthetic() == flags.IsSynthetic() && two.IsKeyPoint() == flags.IsKeyPoint()
            && two.IsWithheld() == flags.IsWithheld() && two.ScannerChannel() == flags.ScannerChannel()
            && two.ClassCode() == (if flags.IsOverlap() then 12 else flags.c)
            && two.IsOverlap() == (flags.IsOverlap() || flags.c == 12 || flags.c == 28)
  {
  }

  /** Whether two flags agree in everything but the overlap flag and the class. */
  predicate SameMarks(f: Flags, g: Flags) {
    && f.LeftToRight() == g.LeftToRight() && f.IsEdgeOfFlightLine() == g.IsEdgeOfFlightLine()
    && f.IsSynthetic() == g.IsSynthetic() && f.IsKeyPoint() == g.IsKeyPoint()
    && f.IsWithheld() == g.IsWithheld() && f.ScannerChannel() == g.ScannerChannel()
  }

  /** Widening two flag bytes to three keeps the return fields. It keeps the rest exactly when none of
      direction, edge, synthetic, key point and withheld is set and the class is neither 12 nor 28. */
  lemma WideningKeepsFlagsIff(flags: Flags)
    requires flags.TwoByte?
    ensures var t := flags.ToThreeBytes();
            var wide := ThreeByte(t.0, t.1, t.2);
            && wide.ReturnNumber() == flags.ReturnNumber() && wide.NumberOfReturns() == flags.NumberOfReturns()
            && wide.b == 0 && wide.c == flags.b
            && (SameMarks(wide, flags) && wide.IsOverlap() == flags.IsOverlap() && wide.ClassCode() == flags.ClassCode()
                <==> flags.a < 64 && flags.b < 32 && flags.b & 0xF != 12)
  {
  }

  // The bits of the flag bytes

  /** Where the accessors find their bits: return number, number of returns, direction and edge in the first byte of
      two, class, synthetic, key point and withheld in the second; in three bytes both return fields in the first,
      the marks, overlap, channel, direction and edge in the second, and the class in the third. */
  lemma FlagBits(flags: Flags)
    ensures flags.TwoByte? ==>
              && flags.ReturnNumber() == flags.a & 0x07 && flags.NumberOfReturns() == (flags.a & 0x38) >> 3
              && flags.LeftToRight() == (flags.a & 0x40 != 0) && flags.IsEdgeOfFlightLine() == (flags.a & 0x80 != 0)
              && flags.ClassCode() == flags.b & 0x1F && flags.IsSynthetic() == (flags.b & 0x20 != 0)
              && flags.IsKeyPoint() == (flags.b & 0x40 != 0) && flags.IsWithheld() == (flags.b & 0x80 != 0)
              && flags.ScannerChannel() == 0 && flags.IsOverlap() == (flags.b & 0x0F == 12)
    ensures flags.ThreeByte? ==>
              && flags.ReturnNumber() == flags.a & 0x0F && flags.NumberOfReturns() == (flags.a & 0xF0) >> 4
              && flags.IsSynthetic() == (flags.b & 0x01 != 0) && flags.IsKeyPoint() == (flags.b & 0x02 != 0)
              && flags.IsWithheld() == (flags.b & 0x04 != 0) && flags.IsOverlap() == (flags.b & 0x08 != 0)
              && flags.ScannerChannel() == (flags.b & 0x30) >> 4
              && flags.LeftToRight() == (flags.b & 0x40 != 0) && flags.IsEdgeOfFlightLine() == (flags.b & 0x80 != 0)
              && flags.ClassCode() == flags.c
  {
  }

  /** The class of the overlap points, 12, is replaced by 1; three bytes then have the overlap bit set. */
  lemma ClearedFlags(flags: Flags)
    ensures flags.TwoByte? ==>
              flags.ClearOverlapClass() == if flags.b & 0x1F == 12 then TwoByte(flags.a, flags.b - 11) else flags
    ensures flags.ThreeByte? ==>
              flags.ClearOverlapClass() == if flags.c == 12 then ThreeByte(flags.a, flags.b | 8, 1) else flags
  {
  }

  /** What a raw point becomes, field by field, with the overlap flag as it was before the class was cleared. */
  lemma NewPointFields(fp: Fp, raw: RawPoint, t: Vector<Transform>)
    ensures var p, f := NewPoint(fp, raw, t), raw.flags;
            && p.isOverlap == f.IsOverlap()
            && p.classification == (if f.ClassCode() == 12 then 1 else f.ClassCode())
            && p.returnNumber == f.ReturnNumber() && p.numberOfReturns == f.NumberOfReturns()
            && p.leftToRight == f.LeftToRight() && p.isEdgeOfFlightLine == f.IsEdgeOfFlightLine()
            && p.isSynthetic == f.IsSynthetic() && p.isKeyPoint == f.IsKeyPoint() && p.isWithheld == f.IsWithheld()
            && p.scannerChannel == f.ScannerChannel()
  {
    hide Direct, AngleDegrees, Flags.ClearOverlapClass, Flags.ReturnNumber, Flags.NumberOfReturns;
    hide Flags.LeftToRight, Flags.IsEdgeOfFlightLine, Flags.IsSynthetic, Flags.IsKeyPoint, Flags.IsWithheld;
    hide Flags.IsOverlap, Flags.ClassCode, Flags.ScannerChannel;
    ClearingKeepsOtherFlags(raw.flags);
  }

  /** A point that cannot be packed, and why. */
  lemma PackingErrors(p: Point)
    ensures FlagsOf(p).Ok? <==> p.returnNumber <= 15 && p.numberOfReturns <= 15 && p.scannerChannel <= 3
    ensures FlagsOf(p).Err? ==>
              FlagsOf(p).error
              == if p.returnNumber > 15 then InvalidReturnNumber(Octet(p.returnNumber))
                 else if p.numberOfReturns > 15 then InvalidReturnNumber(Octet(p.numberOfReturns))
                 else InvalidScannerChannel(Octet(p.scannerChannel))
  {
    hide Octet;
  }

  /** Three bytes that cannot be narrowed to two, and why. */
  lemma NarrowingErrors(flags: Flags)
    requires flags.ThreeByte?
    ensures var rn, nr, channel := flags.a & 0x0F, (flags.a & 0xF0) >> 4, (flags.b & 0x30) >> 4;
            && (flags.ToTwoBytes().Ok? <==> rn <= 7 && nr <= 7 && flags.c <= 31 && channel == 0)
            && (flags.ToTwoBytes().Err? ==>
                  flags.ToTwoBytes().error
                  == if rn > 7 then InvalidReturnNumber(Octet(rn))
                     else if nr > 7 then InvalidReturnNumber(Octet(nr))
                     else if flags.c > 31 then InvalidClassification(Octet(flags.c))
                     else InvalidScannerChannel(Octet(channel)))
  {
    hide Octet, Flags.LeftToRight, Flags.IsEdgeOfFlightLine, Flags.IsSynthetic, Flags.IsKeyPoint, Flags.IsWithheld;
    hide Flags.IsOverlap, Flags.ReturnNumber, Flags.NumberOfReturns, Flags.ScannerChannel;
    FlagBits(flags);
  }
}
