/** Reading the metadata of a file, and what it gives for a file laid out by a writer. */
module HeaderFiles {
  import opened Wrappers
  import opened Bytes
  import opened Utf8
  import opened Versions
  import opened Formats
  import opened Transforms
  import opened BoundingBoxes
  import opened VariableRecords
  import RawHeaders
  import opened Headers
  import opened Builders
  import opened Histograms

  /** Point padding and the first EVLR. The seeks are absolute. */
  function ReadEvlr(s: seq<byte>, evlr: Option<RawHeaders.Evlr>, isCompressed: bool, end: nat)
    : Result<(seq<byte>, seq<Vlr>)>
  {
    match evlr
    case None => Ok(([], []))
    case Some(e) =>
      if !isCompressed && e.startOfFirstEvlr < end then Err(OffsetToEvlrsTooSmall(e.startOfFirstEvlr))
      else
        var padding := if isCompressed then [] else TakeAt(s, end, e.startOfFirstEvlr - end);
        var first :- ReadRawVlr(s, e.startOfFirstEvlr, true);
        Ok((padding, [NewVlr(first.0)]))
  }

  /** The header of the file that starts at `pos`, and the position at which the reader is left. */
  function ReadHeader(fp: Fp, s: seq<byte>, pos: nat): Result<(Header, nat)> {
    var r :- RawHeaders.ReadRawHeader(s, pos);
    var raw := r.0;
    var builder :- NewBuilder(fp, raw);
    var vs :- ReadVlrs(s, r.1, raw.layout.numberOfVlrs);
    var position := raw.layout.headerSize + VlrsLen(vs.0, false);
    var offset := raw.layout.offsetToPointData;
    if position > offset then Err(OffsetToPointDataTooSmall(offset))
    else
      var vlrPadding := TakeAt(s, vs.1, offset - position);
      var tail :- ReadEvlr(s, raw.evlr, builder.pointFormat.isCompressed, raw.OffsetToEndOfPoints());
      var complete := builder.(vlrs := vs.0, vlrPadding := vlrPadding, pointPadding := tail.0, evlrs := tail.1);
      var header :- IntoHeader(Upgraded(complete));
      Ok((header, offset))
  }

  // What a written header reads back as

  function DateBack(d: Option<Date>): Option<Date> {
    DateFromRaw(DateRaw(d).1, DateRaw(d).0)
  }

  function BoundsBack(fp: Fp, b: Bounds): Bounds {
    Bounds(Vector(fp.dec(fp.enc(b.min.x)), fp.dec(fp.enc(b.min.y)), fp.dec(fp.enc(b.min.z))),
           Vector(fp.dec(fp.enc(b.max.x)), fp.dec(fp.enc(b.max.y)), fp.dec(fp.enc(b.max.z))))
  }

  /** Only the first EVLR is read. */
  function EvlrsBack(h: Header): seq<Vlr> {
    if h.evlrs == [] then [] else [Trimmed(h.evlrs[0])]
  }

  /** Strings end at their first NUL, the box is the snapped one, the histogram is what the dual
      encoding keeps of it, and only the first EVLR is there, with the point padding before it.
      Extended formats imply a WKT CRS. Nothing else changes. */
  function HeaderBack(fp: Fp, h: Header): Header
    requires Adapt(fp, h.bounds, TransformsOf(fp, h)).Ok?
  {
    h.(bounds := BoundsBack(fp, Adapt(fp, h.bounds, TransformsOf(fp, h)).value),
       date := DateBack(h.date),
       evlrs := EvlrsBack(h),
       hasWktCrs := h.hasWktCrs || h.pointFormat.isExtended,
       pointPadding := if h.evlrs == [] then [] else h.pointPadding,
       generatingSoftware := UpToNul(h.generatingSoftware),
       systemIdentifier := UpToNul(h.systemIdentifier),
       byReturn := HistogramBack(h.byReturn, h.version),
       startOfFirstEvlr := None,
       vlrs := TrimmedAll(h.vlrs))
  }

  /** A sound header whose 16-bit record length does not overflow; the rest is what its Rust types give. */
  predicate Writable(h: Header) {
    && Sound(h)
    && h.pointFormat.LenFits()
    && |h.guid| == 16
    && IsText(h.systemIdentifier) && IsText(h.generatingSoftware)
    && (forall v | v in h.vlrs :: v.HasText())
    && (forall v | v in h.evlrs :: v.HasText() && |v.data| <= U64_MAX)
  }

  lemma GlobalEncodingReadsBack(h: Header)
    ensures var g := GlobalEncoding(h);
            && (g % 2 == 1) == h.gpsStandard
            && (g / 8 % 2 == 1) == h.hasSyntheticReturnNumbers
            && (g / 16 % 2 == 1) == (h.hasWktCrs || h.pointFormat.isExtended)
  {
  }

  lemma FormatReadsBack(fp: Fp, h: Header)
    requires Writable(h) && HeaderIntoRaw(fp, h).Ok?
    ensures FormatFromRaw(RawHeaders.Canonical(HeaderIntoRaw(fp, h).value)) == Ok(h.pointFormat)
  {
    FormatCodesAreInvertible(0, h.pointFormat);
  }

  /** The builder that a written header block gives. */
  lemma BuilderReadsBack(fp: Fp, h: Header)
    requires Writable(h) && HeaderIntoRaw(fp, h).Ok?
    ensures Adapt(fp, h.bounds, TransformsOf(fp, h)).Ok?
    ensures NewBuilder(fp, RawHeaders.Canonical(HeaderIntoRaw(fp, h).value))
         == Ok(FromHeader(HeaderBack(fp, h).(vlrs := [], vlrPadding := [], pointPadding := [], evlrs := [])))
  {
    hide Adapt, Sound, HistogramOf, LegacyCounts, LargeCounts, LasStr, LasString, GlobalEncoding;
    hide FormatFromRaw, OffsetToPointData;
    var raw := HeaderIntoRaw(fp, h).value;
    FormatReadsBack(fp, h);
    LasStringReadsBack(h.generatingSoftware, 32);
    LasStringReadsBack(h.systemIdentifier, 32);
    GlobalEncodingReadsBack(h);
    PointCountSurvives(h, raw);
    assert HistogramFromRaw(RawHeaders.Canonical(raw)) == HistogramBack(h.byReturn, h.version);
  }

  lemma SoundVersion(h: Header)
    requires Sound(h)
    ensures h.version.AtMost(Version(1, 4))
  {
  }

  /** What is read back is normalised, with any padding before its EVLR. */
  lemma HeaderBackIsNormalised(fp: Fp, h: Header, padding: seq<byte>)
    requires Sound(h) && Adapt(fp, h.bounds, TransformsOf(fp, h)).Ok?
    requires padding != [] ==> h.evlrs != []
    ensures var back := HeaderBack(fp, h).(pointPadding := padding);
            Normalised(back) && IntoHeader(Upgraded(FromHeader(back))) == Ok(back)
  {
    hide Accepts, LeastAccepting;
    var back := HeaderBack(fp, h).(pointPadding := padding);
    assert forall v | v in back.vlrs :: !v.HasLargeData() by {
      forall i | 0 <= i < |back.vlrs| ensures !back.vlrs[i].HasLargeData() {
        assert h.vlrs[i] in h.vlrs;
      }
    }
    NormalisedIffIdempotent(back);
    UpgradeSucceedsIfAnyVersionDoes(FromHeader(back));
  }

  lemma {:induction false} TrimmedLength(vs: seq<Vlr>)
    ensures VlrsLen(TrimmedAll(vs), false) == VlrsLen(vs, false)
  {
    if vs != [] {
      TrimmedLength(vs[1..]);
      assert TrimmedAll(vs)[1..] == TrimmedAll(vs[1..]);
    }
  }

  /** The first EVLR stands where the header says, and not before the end of the points as the reader computes it. */
  predicate TailAt(s: seq<byte>, h: Header, offset: nat) {
    h.evlrs != [] ==>
      && h.startOfFirstEvlr.Some? && offset + PointDataLen(h) <= h.startOfFirstEvlr.value
      && EncodeVlr(h.evlrs[0], true).Ok?
      && At(s, h.startOfFirstEvlr.value, EncodeVlr(h.evlrs[0], true).value)
  }

  /** Point padding is whatever the reader finds between the end of the points and the first EVLR. */
  function PaddingBack(s: seq<byte>, h: Header, offset: nat): seq<byte>
    requires TailAt(s, h, offset)
  {
    var end := offset + PointDataLen(h);
    if h.evlrs == [] then [] else TakeAt(s, end, h.startOfFirstEvlr.value - end)
  }

  lemma EvlrReadsBack(fp: Fp, h: Header, s: seq<byte>, offset: nat)
    requires Writable(h) && HeaderIntoRaw(fp, h).Ok? && !h.pointFormat.isCompressed
    requires OffsetToPointData(h) == Ok(offset) && TailAt(s, h, offset)
    ensures var raw := RawHeaders.Canonical(HeaderIntoRaw(fp, h).value);
            && raw.OffsetToEndOfPoints() == offset + PointDataLen(h)
            && ReadEvlr(s, raw.evlr, false, raw.OffsetToEndOfPoints()) == Ok((PaddingBack(s, h, offset), EvlrsBack(h)))
  {
    hide Adapt, HistogramOf, LegacyCounts, LargeCounts, LasStr, LasString, GlobalEncoding, EncodeVlr, ReadRawVlr;
    var raw := HeaderIntoRaw(fp, h).value;
    PointCountSurvives(h, raw);
    if h.evlrs != [] {
      HeaderSizeIsPositive(h);
      VlrReadsBack(s, h.startOfFirstEvlr.value, h.evlrs[0], true);
    }
  }

  lemma HeaderSizeIsPositive(h: Header)
    requires OffsetToPointData(h).Ok?
    ensures OffsetToPointData(h).value > 0
  {
  }

  /** The records and padding between header block and points. */
  lemma RecordsReadBack(fp: Fp, h: Header, s: seq<byte>, pos: nat)
    requires Writable(h) && Preamble(fp, h).Ok? && At(s, pos, Preamble(fp, h).value)
    ensures HeaderBlock(fp, h).Ok? && At(s, pos, HeaderBlock(fp, h).value)
    ensures var p := pos + |HeaderBlock(fp, h).value|;
            && ReadVlrs(s, p, |h.vlrs|) == Ok((TrimmedAll(h.vlrs), p + VlrsLen(h.vlrs, false)))
            && TakeAt(s, p + VlrsLen(h.vlrs, false), |h.vlrPadding|) == h.vlrPadding
  {
    hide HeaderBlock, EncodeVlrs, ReadVlrs;
    var block, vlrs := HeaderBlock(fp, h).value, EncodeVlrs(h.vlrs, false).value;
    AtAppend(s, pos, block + vlrs, h.vlrPadding);
    AtAppend(s, pos, block, vlrs);
    VlrsReadBack(s, pos + |block|, h.vlrs);
  }

  /** Reading the metadata of a written file gives back the header, wherever the file stands and whatever
      surrounds it. Positions are counted from the start of the stream and not of the file: this is where
      point padding is read from and where the reader is left. */
  lemma HeaderReadsBack(fp: Fp, h: Header, s: seq<byte>, pos: nat)
    requires Writable(h) && !h.pointFormat.isCompressed
    requires Preamble(fp, h).Ok? && At(s, pos, Preamble(fp, h).value)
    requires TailAt(s, h, |Preamble(fp, h).value|)
    ensures Adapt(fp, h.bounds, TransformsOf(fp, h)).Ok?
    ensures var offset := |Preamble(fp, h).value|;
            ReadHeader(fp, s, pos) == Ok((HeaderBack(fp, h).(pointPadding := PaddingBack(s, h, offset)), offset))
  {
    hide Adapt, Writable, Preamble, TailAt, At, TakeAt, ReadEvlr, ReadVlrs, RawHeaders.ReadRawHeader, NewBuilder;
    hide IntoHeader, Upgraded, HeaderIntoRaw, RawHeaders.Canonical, FromHeader, HeaderBack;
    WritableIsSound(h);
    var padding := PaddingBack(s, h, |Preamble(fp, h).value|);
    StagesReadBack(fp, h, s, pos);
    CompletedBuilder(fp, h, padding);
    HeaderBackIsNormalised(fp, h, padding);
  }

  lemma WritableIsSound(h: Header)
    requires Writable(h)
    ensures Sound(h) && h.pointFormat.LenFits() && |h.guid| == 16
  {
  }

  lemma CompletedBuilder(fp: Fp, h: Header, padding: seq<byte>)
    requires Adapt(fp, h.bounds, TransformsOf(fp, h)).Ok?
    ensures FromHeader(HeaderBack(fp, h).(vlrs := [], vlrPadding := [], pointPadding := [], evlrs := []))
              .(vlrs := TrimmedAll(h.vlrs), vlrPadding := h.vlrPadding,
                pointPadding := padding, evlrs := EvlrsBack(h))
         == FromHeader(HeaderBack(fp, h).(pointPadding := padding))
    ensures FromHeader(HeaderBack(fp, h).(vlrs := [], vlrPadding := [], pointPadding := [], evlrs := [])).pointFormat
         == h.pointFormat
  {
    hide Adapt, Trimmed, BoundsBack, HistogramBack, DateBack;
  }

  /** Each stage of reading the metadata. */
  lemma StagesReadBack(fp: Fp, h: Header, s: seq<byte>, pos: nat)
    requires Writable(h) && !h.pointFormat.isCompressed
    requires Preamble(fp, h).Ok? && At(s, pos, Preamble(fp, h).value)
    requires TailAt(s, h, |Preamble(fp, h).value|)
    ensures HeaderIntoRaw(fp, h).Ok? && Adapt(fp, h.bounds, TransformsOf(fp, h)).Ok?
    ensures var r := RawHeaders.ReadRawHeader(s, pos);
            var offset := |Preamble(fp, h).value|;
            && r.Ok?
            && NewBuilder(fp, r.value.0)
               == Ok(FromHeader(HeaderBack(fp, h).(vlrs := [], vlrPadding := [], pointPadding := [], evlrs := [])))
            && var layout := r.value.0.layout;
            && layout.offsetToPointData == offset == layout.headerSize + VlrsLen(h.vlrs, false) + |h.vlrPadding|
            && VlrsLen(TrimmedAll(h.vlrs), false) == VlrsLen(h.vlrs, false)
            && ReadVlrs(s, r.value.1, layout.numberOfVlrs)
               == Ok((TrimmedAll(h.vlrs), r.value.1 + VlrsLen(h.vlrs, false)))
            && TakeAt(s, r.value.1 + VlrsLen(h.vlrs, false), |h.vlrPadding|) == h.vlrPadding
            && ReadEvlr(s, r.value.0.evlr, false, r.value.0.OffsetToEndOfPoints())
               == Ok((PaddingBack(s, h, offset), EvlrsBack(h)))
  {
    hide Adapt, Sound, Preamble, TailAt, At, TakeAt, ReadEvlr, ReadVlrs, RawHeaders.ReadRawHeader, NewBuilder;
    hide HeaderIntoRaw, RawHeaders.Canonical, FromHeader, HeaderBack, RawHeaders.EncodeRawHeader;
    RecordsReadBack(fp, h, s, pos);
    SoundVersion(h);
    PreambleLength(fp, h);
    RawHeaderLayout(fp, h);
    RawHeaders.RawHeaderReadsBack(s, pos, HeaderIntoRaw(fp, h).value);
    BuilderReadsBack(fp, h);
    TrimmedLength(h.vlrs);
    EvlrReadsBack(fp, h, s, |Preamble(fp, h).value|);
  }

  lemma RawHeaderLayout(fp: Fp, h: Header)
    requires Writable(h) && Preamble(fp, h).Ok?
    ensures HeaderIntoRaw(fp, h).Ok? && Adapt(fp, h.bounds, TransformsOf(fp, h)).Ok?
    ensures var raw := HeaderIntoRaw(fp, h).value;
            && HeaderBlock(fp, h) == Ok(RawHeaders.EncodeRawHeader(raw))
            && RawHeaders.Canonical(raw).layout == raw.layout
            && raw.layout.numberOfVlrs == |h.vlrs|
            && raw.layout.headerSize == h.version.HeaderSize() + |h.padding| && raw.padding == h.padding
            && OffsetToPointData(h) == Ok(raw.layout.offsetToPointData)
            && raw.layout.offsetToPointData == raw.layout.headerSize + VlrsLen(h.vlrs, false) + |h.vlrPadding|
            && raw.Version() == h.version && raw.identity.signature == RawHeaders.LASF
  {
    hide Adapt, Sound, HistogramOf, LegacyCounts, LargeCounts, LasStr, LasString, GlobalEncoding;
    hide RawHeaders.EncodeRawHeader;
  }

  // Foreign files

  /** The version of what is read from any file: the one the file names, or the one its features need. */
  lemma ReadVersion(fp: Fp, s: seq<byte>, pos: nat)
    requires ReadHeader(fp, s, pos).Ok?
    ensures RawHeaders.ReadRawHeader(s, pos).Ok?
    ensures var v := RawHeaders.ReadRawHeader(s, pos).value.0.Version();
            var h := ReadHeader(fp, s, pos).value.0;
            && v.major == 1 && v.minor <= 4
            && h.version == Version(1, Max(v.minor, NeededMinor(FromHeader(h))))
  {
    hide RawHeaders.ReadRawHeader, ReadVlrs, ReadEvlr, IntoHeader, Upgraded, NeededMinor, TakeAt;
    hide VlrsLen, FormatFromRaw;
    var r := RawHeaders.ReadRawHeader(s, pos).value;
    var raw := r.0;
    var builder := NewBuilder(fp, raw).value;
    var vs := ReadVlrs(s, r.1, raw.layout.numberOfVlrs).value;
    var position := raw.layout.headerSize + VlrsLen(vs.0, false);
    var tail := ReadEvlr(s, raw.evlr, builder.pointFormat.isCompressed, raw.OffsetToEndOfPoints()).value;
    var vlrPadding := TakeAt(s, vs.1, raw.layout.offsetToPointData - position);
    UpgradedVersion(builder.(vlrs := vs.0, vlrPadding := vlrPadding, pointPadding := tail.0, evlrs := tail.1));
  }

  /** A stream that does not hold "LASF" is refused. */
  lemma SignatureIsChecked(fp: Fp, s: seq<byte>, pos: nat)
    ensures pos + 4 <= |s| && s[pos..pos + 4] != [0x4C, 0x41, 0x53, 0x46] ==>
              ReadHeader(fp, s, pos) == Err(InvalidFileSignature)
    ensures pos + 4 > |s| ==> ReadHeader(fp, s, pos) == Err(UnexpectedEof)
  {
    hide NewBuilder, ReadVlrs, ReadEvlr, IntoHeader, Upgraded, RawHeaders.ReadVersionFields, RawHeaders.GetIdentity;
    hide RawHeaders.GetLayout, RawHeaders.GetExtents;
  }

  /** Formats beyond 10 and records that are too short for their format are refused. */
  lemma FormatIsChecked(fp: Fp, s: seq<byte>, pos: nat)
    requires RawHeaders.ReadRawHeader(s, pos).Ok?
    ensures var l := RawHeaders.ReadRawHeader(s, pos).value.0.layout;
            && (10 < l.formatId < 128 ==> ReadHeader(fp, s, pos) == Err(InvalidPointFormatNumber(l.formatId)))
            && (NewFormat(l.formatId).Ok? && l.recordLength < NewFormat(l.formatId).value.Len() ==>
                  ReadHeader(fp, s, pos) == Err(PointDataRecordLengthTooLarge(l.recordLength)))
            && (ReadHeader(fp, s, pos).Ok? ==>
                  ReadHeader(fp, s, pos).value.0.pointFormat.Len() == l.recordLength)
  {
    hide RawHeaders.ReadRawHeader, ReadVlrs, ReadEvlr, LasString, HistogramFromRaw, PointsFromRaw, Select, TakeAt;
    hide LeastAccepting, UnsupportedUse;
  }

  /** Offsets that point back into the records, or of EVLRs back into the points, are refused. */
  lemma OffsetsAreChecked(fp: Fp, s: seq<byte>, pos: nat, raw: RawHeaders.RawHeader, end: nat, vs: seq<Vlr>, at: nat)
    requires RawHeaders.ReadRawHeader(s, pos) == Ok((raw, end)) && NewBuilder(fp, raw).Ok?
    requires ReadVlrs(s, end, raw.layout.numberOfVlrs) == Ok((vs, at))
    ensures var offset, used := raw.layout.offsetToPointData, raw.layout.headerSize + VlrsLen(vs, false);
            && (offset < used ==> ReadHeader(fp, s, pos) == Err(OffsetToPointDataTooSmall(offset)))
            && (used <= offset && raw.evlr.Some? && raw.layout.formatId < 128
                && raw.evlr.value.startOfFirstEvlr < offset + PointsFromRaw(raw) * raw.layout.recordLength ==>
                  ReadHeader(fp, s, pos) == Err(OffsetToEvlrsTooSmall(raw.evlr.value.startOfFirstEvlr)))
  {
    hide RawHeaders.ReadRawHeader, ReadVlrs, ReadRawVlr, LasString, HistogramFromRaw, IntoHeader, Upgraded, VlrsLen;
    hide BoundsFromRaw, DateFromRaw;
    PointCountOfRaw(raw);
  }

  /** In a compressed file the end of the points is not known: any start of the EVLR is taken, without padding. */
  lemma CompressedTail(s: seq<byte>, start: u64, n: u32, end: nat)
    ensures var evlr := Some(RawHeaders.Evlr(start, n));
            var first := ReadRawVlr(s, start, true);
            ReadEvlr(s, evlr, true, end)
            == if first.Ok? then Ok(([], [NewVlr(first.value.0)])) else Err(first.error)
  {
    hide ReadRawVlr, NewVlr;
  }
}
