/** Raw point records: flag bytes, scan angles and the per-format record codec. */
module RawPoints {
  import opened Wrappers
  import opened Bytes
  import opened Formats
  import opened Transforms

  const OVERLAP_CLASSIFICATION_CODE: bv8 := 12
  const UNCLASSIFIED: bv8 := 1

  /** The `f32` nearest to 0.006. */
  const SCAN_ANGLE_SCALE_FACTOR: real := 12884902.0 / 2147483648.0

  datatype Color = Color(red: u16, green: u16, blue: u16)

  /** The `f32` fields are kept as their 32-bit words. */
  datatype Waveform = Waveform(
    descriptorIndex: u8,
    byteOffset: u64,
    packetSize: u32,
    returnPointLocation: u32,
    xt: u32,
    yt: u32,
    zt: u32)

  datatype Flags = TwoByte(a: bv8, b: bv8) | ThreeByte(a: bv8, b: bv8, c: bv8) {
    function ReturnNumber(): bv8 {
      if TwoByte? then a & 7 else a & 15
    }

    function NumberOfReturns(): bv8 {
      if TwoByte? then (a >> 3) & 7 else (a >> 4) & 15
    }

    function DirectionByte(): bv8 {
      if TwoByte? then a else b
    }

    predicate LeftToRight() {
      (DirectionByte() >> 6) & 1 == 1
    }

    predicate IsEdgeOfFlightLine() {
      DirectionByte() >> 7 == 1
    }

    predicate IsSynthetic() {
      if TwoByte? then (b >> 5) & 1 == 1 else b & 1 == 1
    }

    predicate IsKeyPoint() {
      if TwoByte? then (b >> 6) & 1 == 1 else b & 2 == 2
    }

    predicate IsWithheld() {
      if TwoByte? then (b >> 7) & 1 == 1 else b & 4 == 4
    }

    /** Four bits of the class are compared in the two-byte layout, not five. */
    predicate IsOverlap() {
      if TwoByte? then b & 0xF == OVERLAP_CLASSIFICATION_CODE else b & 8 == 8
    }

    function ScannerChannel(): bv8 {
      if TwoByte? then 0 else (b >> 4) & 3
    }

    function ClassCode(): bv8 {
      if TwoByte? then b & 0x1F else c
    }

    function ClearOverlapClass(): Flags {
      if ClassCode() != OVERLAP_CLASSIFICATION_CODE then this
      else if TwoByte? then TwoByte(a, (b & 0xE0) + UNCLASSIFIED)
      else ThreeByte(a, b | 8, UNCLASSIFIED)
    }

    function ToTwoBytes(): Result<(bv8, bv8)> {
      if TwoByte? then Ok((a, b))
      else if ReturnNumber() > 7 then Err(InvalidReturnNumber(Octet(ReturnNumber())))
      else if NumberOfReturns() > 7 then Err(InvalidReturnNumber(Octet(NumberOfReturns())))
      else if c > 31 then Err(InvalidClassification(Octet(c)))
      else if ScannerChannel() > 0 then Err(InvalidScannerChannel(Octet(ScannerChannel())))
      else
        var x := (NumberOfReturns() << 3) + ReturnNumber()
                 + (if LeftToRight() then 64 else 0)
                 + (if IsEdgeOfFlightLine() then 128 else 0);
        var y := (if IsOverlap() then OVERLAP_CLASSIFICATION_CODE else c)
                 + (if IsSynthetic() then 32 else 0)
                 + (if IsKeyPoint() then 64 else 0)
                 + (if IsWithheld() then 128 else 0);
        Ok((x, y))
    }

    function ToThreeBytes(): (bv8, bv8, bv8) {
      if TwoByte? then ((NumberOfReturns() << 4) + ReturnNumber(), 0, b) else (a, b, c)
    }

    /** The bytes a record of the given layout stores. */
    function Stored(isExtended: bool): Result<seq<byte>> {
      if isExtended then
        var t := ToThreeBytes();
        Ok([Octet(t.0), Octet(t.1), Octet(t.2)])
      else
        var t :- ToTwoBytes();
        Ok([Octet(t.0), Octet(t.1)])
    }
  }

  datatype ScanAngle = Rank(rank: i8) | Scaled(scaled: i16)

  function Truncate(x: real): int {
    if x >= 0.0 then x.Floor else -(-x).Floor
  }

  /** Float-to-integer casts saturate. */
  function SaturateI8(n: int): i8 {
    if n > 0x7F then 0x7F else if n < -0x80 then -0x80 else n
  }

  function SaturateI16(n: int): i16 {
    if n > 0x7FFF then 0x7FFF else if n < -0x8000 then -0x8000 else n
  }

  function ScaleUp(x: real): real {
    x * SCAN_ANGLE_SCALE_FACTOR
  }

  function ScaleDown(x: real): real {
    x / SCAN_ANGLE_SCALE_FACTOR
  }

  function AngleDegrees(fp: Fp, angle: ScanAngle): real {
    match angle
    case Rank(n) => n as real
    case Scaled(n) => fp.rnd32(ScaleUp(n as real))
  }

  function AngleFromDegrees(fp: Fp, degrees: real): ScanAngle {
    Scaled(SaturateI16(Truncate(fp.rnd32(ScaleDown(degrees)))))
  }

  function StoredRank(fp: Fp, angle: ScanAngle): i8 {
    match angle
    case Rank(n) => n
    case Scaled(_) => SaturateI8(RoundHalfAway(AngleDegrees(fp, angle)))
  }

  function StoredScaled(fp: Fp, angle: ScanAngle): i16 {
    match angle
    case Rank(n) => AngleFromDegrees(fp, n as real).scaled
    case Scaled(n) => n
  }

  datatype RawPoint = RawPoint(
    x: i32,
    y: i32,
    z: i32,
    intensity: u16,
    flags: Flags,
    scanAngle: ScanAngle,
    userData: u8,
    pointSourceId: u16,
    gpsTime: Option<u64>,
    color: Option<Color>,
    waveform: Option<Waveform>,
    nir: Option<u16>,
    extraBytes: seq<byte>)

  // Writing

  function ColorBytes(c: Color): (s: seq<byte>)
    ensures |s| == 6
  {
    U16Bytes(c.red) + U16Bytes(c.green) + U16Bytes(c.blue)
  }

  const WAVEFORM_WIDTHS: seq<nat> := [1, 8, 4, 4, 4, 4, 4]

  function WaveformFields(w: Waveform): (fields: seq<seq<byte>>)
    ensures HaveWidths(fields, WAVEFORM_WIDTHS)
  {
    [[w.descriptorIndex], U64Bytes(w.byteOffset), U32Bytes(w.packetSize), U32Bytes(w.returnPointLocation),
     U32Bytes(w.xt), U32Bytes(w.yt), U32Bytes(w.zt)]
  }

  const DEFAULT_WAVEFORM := Waveform(0, 0, 0, 0, 0, 0, 0)

  /** The leading fields, written before the flags can be found unwritable. */
  function LeadingFields(p: RawPoint): seq<seq<byte>> {
    [I32Bytes(p.x), I32Bytes(p.y), I32Bytes(p.z), U16Bytes(p.intensity)]
  }

  function AngleAndUserData(fp: Fp, p: RawPoint, isExtended: bool): seq<byte> {
    if isExtended then [p.userData] + I16Bytes(StoredScaled(fp, p.scanAngle))
    else [I8Byte(StoredRank(fp, p.scanAngle)), p.userData]
  }

  function NirBytes(p: RawPoint, f: Format): seq<byte> {
    if !f.hasNir then []
    else match p.nir
      case Some(n) => U16Bytes(n)
      case None => U16Bytes(0)
  }

  function WaveformBytes(p: RawPoint, f: Format): seq<byte> {
    if !f.hasWaveform then []
    else match p.waveform
      case Some(w) => Join(WaveformFields(w))
      case None => Join(WaveformFields(DEFAULT_WAVEFORM))
  }

  /** The twelve fields in the order they are written: NIR before the waveform. */
  function PointFields(fp: Fp, p: RawPoint, f: Format, flags: seq<byte>): (fields: seq<seq<byte>>)
    ensures |fields| == 12
  {
    [I32Bytes(p.x), I32Bytes(p.y), I32Bytes(p.z), U16Bytes(p.intensity),
     flags,
     AngleAndUserData(fp, p, f.isExtended),
     U16Bytes(p.pointSourceId),
     if f.hasGpsTime then U64Bytes(match p.gpsTime case Some(t) => t case None => 0) else [],
     if f.hasColor then ColorBytes(match p.color case Some(c) => c case None => Color(0, 0, 0)) else [],
     NirBytes(p, f),
     WaveformBytes(p, f),
     p.extraBytes]
  }

  function EncodePoint(fp: Fp, p: RawPoint, f: Format): Result<seq<byte>>
    requires |p.extraBytes| == f.extraBytes
  {
    var flags :- p.flags.Stored(f.isExtended);
    Ok(Join(PointFields(fp, p, f, flags)))
  }

  // Reading

  /** The fields in the order they are read: the waveform before NIR. */
  function ReadWidths(f: Format): seq<nat> {
    [4, 4, 4, 2,
     if f.isExtended then 3 else 2,
     if f.isExtended then 3 else 2,
     2,
     if f.hasGpsTime then 8 else 0,
     if f.hasColor then 6 else 0,
     if f.hasWaveform then 29 else 0,
     if f.hasNir then 2 else 0,
     f.extraBytes]
  }

  lemma ReadWidthsSum(f: Format)
    ensures Sum(ReadWidths(f)) == f.Len()
    ensures Sum(WAVEFORM_WIDTHS) == 29
  {
    var w := ReadWidths(f);
    assert w == w[..4] + w[4..8] + w[8..];
    SumAppend(w[..4] + w[4..8], w[8..]);
    SumAppend(w[..4], w[4..8]);
    SumOfFour(w[..4]);
    SumOfFour(w[4..8]);
    SumOfFour(w[8..]);
    assert WAVEFORM_WIDTHS == [1, 8, 4, 4] + [4, 4, 4];
    SumAppend([1, 8, 4, 4], [4, 4, 4]);
  }

  function GetColor(s: seq<byte>): (c: Color)
    requires |s| == 6
    ensures ColorBytes(c) == s
  {
    Color(GetU16(s[..2]), GetU16(s[2..4]), GetU16(s[4..]))
  }

  function GetWaveform(s: seq<byte>): (w: Waveform)
    requires |s| == 29
    ensures Join(WaveformFields(w)) == s
  {
    ReadWidthsSum(Format(false, false, false, false, false, 0, false));
    var c := Split(s, WAVEFORM_WIDTHS);
    var w := Waveform(c[0][0], GetU64(c[1]), GetU32(c[2]), GetU32(c[3]), GetU32(c[4]), GetU32(c[5]), GetU32(c[6]));
    assert forall i | 0 <= i < 7 :: WaveformFields(w)[i] == c[i];
    assert WaveformFields(w) == c;
    JoinSplit(s, WAVEFORM_WIDTHS);
    w
  }

  function PointFromFields(c: seq<seq<byte>>, f: Format): RawPoint
    requires HaveWidths(c, ReadWidths(f))
  {
    var w := ReadWidths(f);
    assert |c| == 12 && forall i :: 0 <= i < 12 ==> |c[i]| == w[i];
    var nir := if f.hasNir then GetU16(c[10]) else 0;
    RawPoint(
      GetI32(c[0]), GetI32(c[1]), GetI32(c[2]), GetU16(c[3]),
      if f.isExtended then ThreeByte(Bits(c[4][0]), Bits(c[4][1]), Bits(c[4][2]))
      else TwoByte(Bits(c[4][0]), Bits(c[4][1])),
      if f.isExtended then Scaled(GetI16(c[5][1..])) else Rank(GetI8(c[5][0])),
      if f.isExtended then c[5][0] else c[5][1],
      GetU16(c[6]),
      if f.hasGpsTime then Some(GetU64(c[7])) else None,
      if f.hasColor then Some(GetColor(c[8])) else None,
      if f.hasWaveform then Some(GetWaveform(c[9])) else None,
      if nir == 0 then None else Some(nir),
      c[11])
  }

  function DecodePoint(s: seq<byte>, f: Format): RawPoint
    requires |s| == f.Len()
  {
    ReadWidthsSum(f);
    PointFromFields(Split(s, ReadWidths(f)), f)
  }
}
