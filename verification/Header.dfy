/** Header metadata: its raw form, its offsets and the bytes that precede the points. */
module Headers {
  import opened Wrappers
  import opened Bytes
  import opened Versions
  import opened Formats
  import opened Transforms
  import opened BoundingBoxes
  import opened VariableRecords
  import RawHeaders
  import opened Points

  /** Scale and offset as the 64-bit words the file stores. */
  datatype TransformWords = TransformWords(scale: u64, offset: u64)

  /** A calendar day by its ordinal in the year. */
  datatype Date = Date(year: i32, ordinal: u16)

  datatype Header = Header(
    bounds: Bounds,
    date: Option<Date>,
    evlrs: seq<Vlr>,
    fileSourceId: u16,
    generatingSoftware: seq<byte>,
    gpsStandard: bool,
    guid: seq<byte>,
    hasSyntheticReturnNumbers: bool,
    hasWktCrs: bool,
    numberOfPoints: u64,
    byReturn: map<u8, u64>,
    padding: seq<byte>,
    pointFormat: Format,
    pointPadding: seq<byte>,
    startOfFirstEvlr: Option<u64>,
    systemIdentifier: seq<byte>,
    transforms: Vector<TransformWords>,
    version: Version,
    vlrPadding: seq<byte>,
    vlrs: seq<Vlr>)

  function TransformOf(fp: Fp, w: TransformWords): Transform {
    Transform(fp.val(w.scale), fp.val(w.offset))
  }

  function TransformsOf(fp: Fp, h: Header): Vector<Transform> {
    Vector(TransformOf(fp, h.transforms.x), TransformOf(fp, h.transforms.y), TransformOf(fp, h.transforms.z))
  }

  // Statistics

  function Cleared(h: Header): Header {
    h.(numberOfPoints := 0, byReturn := map[], bounds := EMPTY_BOUNDS)
  }

  /** Counts are 64-bit and wrap. */
  function Successor(n: u64): u64 {
    if n == U64_MAX then 0 else n + 1
  }

  function CountReturn(m: map<u8, u64>, k: u8): map<u8, u64> {
    if k == 0 then m else m[k := Successor(if k in m then m[k] else 0)]
  }

  function Added(h: Header, p: Point): Header {
    h.(numberOfPoints := Successor(h.numberOfPoints),
       byReturn := CountReturn(h.byReturn, Octet(p.returnNumber)),
       bounds := Grow(h.bounds, Vector(p.x, p.y, p.z)))
  }

  function AddedAll(h: Header, ps: seq<Point>): Header {
    if ps == [] then h else Added(AddedAll(h, ps[..|ps| - 1]), ps[|ps| - 1])
  }

  // Raw form

  function GlobalEncoding(h: Header): u16 {
    (if h.gpsStandard then 1 else 0)
    + (if h.hasSyntheticReturnNumbers then 8 else 0)
    + (if h.hasWktCrs || h.pointFormat.isExtended then 16 else 0)
  }

  function HeaderSizeOf(h: Header): Result<u16> {
    var size := h.version.HeaderSize() + |h.padding|;
    if size > U16_MAX then Err(HeaderTooLarge(size)) else Ok(size)
  }

  function OffsetToPointData(h: Header): Result<u32> {
    var size :- HeaderSizeOf(h);
    var offset := size + VlrsLen(h.vlrs, false) + |h.vlrPadding|;
    if offset > U32_MAX then Err(OffsetToPointDataTooLarge(offset)) else Ok(offset)
  }

  function NumberOfVlrsRaw(h: Header): Result<u32> {
    if |h.vlrs| > U32_MAX then Err(TooManyVlrs(|h.vlrs|)) else Ok(|h.vlrs|)
  }

  function NumberOfPointsRaw(h: Header): Result<u32> {
    if h.numberOfPoints <= U32_MAX then Ok(h.numberOfPoints)
    else if h.version.Supports(LargeFiles) then Ok(0)
    else Err(TooManyPoints(h.numberOfPoints))
  }

  function CountOf(m: map<u8, u64>, k: nat): u64 {
    if k in m then m[k] else 0
  }

  /** The error that one entry of the histogram causes when the legacy counts are filled. */
  function LegacyError(m: map<u8, u64>, v: Version, k: u8): Option<Error>
    requires k in m
  {
    if v.Supports(LargeFiles) || k == 0 then None
    else if k > 5 then Some(InvalidReturnNumber(k))
    else if m[k] > U32_MAX then Some(TooManyPoints(m[k]))
    else None
  }

  predicate LegacyFits(m: map<u8, u64>, v: Version) {
    forall k | k in m :: LegacyError(m, v, k).None?
  }

  function LegacyCounts(m: map<u8, u64>): (counts: seq<u32>)
    ensures |counts| == 5
  {
    seq(5, i requires 0 <= i < 5 => if CountOf(m, i + 1) <= U32_MAX then CountOf(m, i + 1) else 0)
  }

  function LargeCounts(m: map<u8, u64>): (counts: seq<u64>)
    ensures |counts| == 15
  {
    seq(15, i requires 0 <= i < 15 => CountOf(m, i + 1))
  }

  /** The histogram is a hash map, so which of several offending entries is reported is not
      determined by the source; the model reports the least. */
  function LeastOffender(m: map<u8, u64>, v: Version, k: nat): Error
    decreases 256 - k
  {
    if k > 255 then InvalidReturnNumber(0)
    else if k in m && LegacyError(m, v, k).Some? then LegacyError(m, v, k).value
    else LeastOffender(m, v, k + 1)
  }

  function LeastKeyFrom(m: map<u8, u64>, k: nat): nat
    decreases 256 - k
  {
    if k > 255 || k in m then k else LeastKeyFrom(m, k + 1)
  }

  function LegacyCountsRaw(h: Header): Result<seq<u32>> {
    if LegacyFits(h.byReturn, h.version) then Ok(LegacyCounts(h.byReturn))
    else Err(LeastOffender(h.byReturn, h.version, 0))
  }

  function LargeFileRaw(h: Header): Result<RawHeaders.LargeFile> {
    if forall k | k in h.byReturn :: k <= 15 then Ok(RawHeaders.LargeFile(h.numberOfPoints, LargeCounts(h.byReturn)))
    else Err(InvalidReturnNumber(LeastKeyFrom(h.byReturn, 16)))
  }

  function PointDataLen(h: Header): nat {
    h.numberOfPoints * h.pointFormat.Len()
  }

  /** The start of the EVLRs: where `close` found it, or computed from the counts. */
  function EvlrRaw(h: Header): Result<Option<RawHeaders.Evlr>> {
    var n := |h.evlrs|;
    if n == 0 then Ok(None)
    else if n > U32_MAX then Err(TooManyEvlrs(n))
    else
      match h.startOfFirstEvlr
      case Some(start) => Ok(Some(RawHeaders.Evlr(start, n)))
      case None =>
        var offset :- OffsetToPointData(h);
        var start := PointDataLen(h) + |h.pointPadding| + offset;
        Ok(Some(RawHeaders.Evlr(start % 0x1_0000_0000_0000_0000, n)))
  }

  function DateRaw(d: Option<Date>): (u16, u16) {
    match d
    case Some(date) => (date.ordinal, date.year % 0x1_0000)
    case None => (0, 0)
  }

  function ExtentsRaw(fp: Fp, h: Header, b: Bounds): RawHeaders.Extents {
    RawHeaders.Extents(
      h.transforms.x.scale, h.transforms.y.scale, h.transforms.z.scale,
      h.transforms.x.offset, h.transforms.y.offset, h.transforms.z.offset,
      fp.enc(b.max.x), fp.enc(b.min.x), fp.enc(b.max.y), fp.enc(b.min.y), fp.enc(b.max.z), fp.enc(b.min.z))
  }

  function HeaderIntoRaw(fp: Fp, h: Header): (r: Result<RawHeaders.RawHeader>)
    requires h.pointFormat.LenFits() && |h.guid| == 16
    ensures r.Ok? ==> RawHeaders.WellFormed(r.value)
  {
    var bounds :- Adapt(fp, h.bounds, TransformsOf(fp, h));
    var systemIdentifier :- LasStr(h.systemIdentifier, 32);
    var generatingSoftware :- LasStr(h.generatingSoftware, 32);
    var date := DateRaw(h.date);
    var identity := RawHeaders.Identity(
      RawHeaders.LASF, h.fileSourceId, GlobalEncoding(h), h.guid, h.version,
      systemIdentifier, generatingSoftware, date.0, date.1);
    var headerSize :- HeaderSizeOf(h);
    var offset :- OffsetToPointData(h);
    var numberOfVlrs :- NumberOfVlrsRaw(h);
    var formatId :- h.pointFormat.ToWritableU8();
    var numberOfPoints :- NumberOfPointsRaw(h);
    var byReturn :- LegacyCountsRaw(h);
    var layout := RawHeaders.Layout(
      headerSize, offset, numberOfVlrs, formatId, h.pointFormat.Len(), numberOfPoints, byReturn);
    var evlr :- EvlrRaw(h);
    var largeFile :- LargeFileRaw(h);
    Ok(RawHeaders.RawHeader(identity, layout, ExtentsRaw(fp, h, bounds), None, evlr, Some(largeFile), h.padding))
  }

  /** The header block of a header. */
  function HeaderBlock(fp: Fp, h: Header): Result<seq<byte>>
    requires h.pointFormat.LenFits() && |h.guid| == 16
  {
    var raw :- HeaderIntoRaw(fp, h);
    Ok(RawHeaders.EncodeRawHeader(raw))
  }

  /** Header block, records and padding: everything before the first point. */
  function Preamble(fp: Fp, h: Header): Result<seq<byte>>
    requires h.pointFormat.LenFits() && |h.guid| == 16
  {
    var block :- HeaderBlock(fp, h);
    var vlrs :- EncodeVlrs(h.vlrs, false);
    Ok(block + vlrs + h.vlrPadding)
  }

  /** A raw header followed by raw records of one kind is read back part by part, without a gap. */
  lemma RawPartsReadBack(s: seq<byte>, pos: nat, raw: RawHeaders.RawHeader, rs: seq<RawVlr>, extended: bool)
    requires RawHeaders.WellFormed(raw) && raw.identity.signature == RawHeaders.LASF
    requires raw.layout.headerSize == raw.Version().HeaderSize() + |raw.padding|
    requires forall r | r in rs :: WellFormed(r) && r.recordLength.Extended? == extended
    requires At(s, pos, RawHeaders.EncodeRawHeader(raw) + EncodeRawVlrs(rs))
    ensures var first := RawHeaders.ReadRawHeader(s, pos);
            && first.Ok? && first.value.0 == RawHeaders.Canonical(raw)
            && ReadRawVlrs(s, first.value.1, |rs|, extended)
               == Ok((rs, pos + |RawHeaders.EncodeRawHeader(raw) + EncodeRawVlrs(rs)|))
  {
    hide At, RawHeaders.EncodeRawHeader, EncodeRawVlrs, RawHeaders.ReadRawHeader, RawHeaders.Canonical, ReadRawVlrs;
    AtAppend(s, pos, RawHeaders.EncodeRawHeader(raw), EncodeRawVlrs(rs));
    RawHeaders.RawHeaderReadsBack(s, pos, raw);
    RawVlrsReadBack(s, pos + |RawHeaders.EncodeRawHeader(raw)|, rs, extended);
  }

  lemma {:induction false} EncodedVlrsLength(vs: seq<Vlr>)
    requires EncodeVlrs(vs, false).Ok?
    ensures |EncodeVlrs(vs, false).value| == VlrsLen(vs, false)
  {
    if vs != [] {
      EncodedVlrLength(vs[0], false);
      EncodedVlrsLength(vs[1..]);
    }
  }

  lemma HeaderBlockLength(fp: Fp, h: Header)
    requires h.pointFormat.LenFits() && |h.guid| == 16 && HeaderBlock(fp, h).Ok?
    requires h.version.AtMost(Version(1, 4))
    ensures |HeaderBlock(fp, h).value| == h.version.HeaderSize() + |h.padding|
  {
    RawHeaders.EncodedHeaderLength(HeaderIntoRaw(fp, h).value);
  }

  /** What is written before the points is exactly as long as the offset the header announces. */
  lemma PreambleLength(fp: Fp, h: Header)
    requires h.pointFormat.LenFits() && |h.guid| == 16 && Preamble(fp, h).Ok?
    requires h.version.AtMost(Version(1, 4))
    ensures OffsetToPointData(h).Ok? && |Preamble(fp, h).value| == OffsetToPointData(h).value
  {
    HeaderBlockLength(fp, h);
    EncodedVlrsLength(h.vlrs);
  }

  /** Whether a header can be written, and why not, does not depend on where its EVLRs start. */
  lemma ErrorIgnoresEvlrStart(fp: Fp, h: Header, a: u64, b: u64)
    requires h.pointFormat.LenFits() && |h.guid| == 16
    ensures var x := HeaderBlock(fp, h.(startOfFirstEvlr := Some(a)));
            x.Err? ==> HeaderBlock(fp, h.(startOfFirstEvlr := Some(b))) == x
  {
    hide Adapt, LasStr, LegacyFits, LegacyCounts, LargeCounts, LeastOffender, LeastKeyFrom, Format.Len, VlrsLen;
    hide Format.ToWritableU8, RawHeaders.EncodeRawHeader;
    OffsetIgnoresStart(h, Some(a));
    OffsetIgnoresStart(h, Some(b));
  }

  lemma OffsetIgnoresStart(h: Header, start: Option<u64>)
    ensures OffsetToPointData(h.(startOfFirstEvlr := start)) == OffsetToPointData(h)
  {
  }
}
