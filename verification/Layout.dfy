/** Where the fields of a file stand, byte by byte, as sections 2.4 to 2.7 of the LAS 1.4 R15 specification put them. */
module Layouts {
  import opened Wrappers
  import opened Bytes
  import opened Versions
  import opened Formats
  import opened Transforms
  import opened BoundingBoxes
  import opened VariableRecords
  import RawHeaders
  import opened RawPoints
  import PointCodec
  import opened Points
  import opened Headers
  import opened Builders
  import opened Statistics
  import opened HeaderFiles
  import opened Writers
  import opened RoundTrip

  // The public header block

  lemma IdentityLayout(i: RawHeaders.Identity)
    requires |i.signature| == 4 && |i.guid| == 16 && |i.systemIdentifier| == 32 && |i.generatingSoftware| == 32
    ensures var b := Join(RawHeaders.IdentityFields(i));
            && At(b, 0, i.signature) && At(b, 4, U16Bytes(i.fileSourceId)) && At(b, 6, U16Bytes(i.globalEncoding))
            && At(b, 8, i.guid) && At(b, 24, [i.version.major]) && At(b, 25, [i.version.minor])
            && At(b, 26, i.systemIdentifier) && At(b, 58, i.generatingSoftware)
            && At(b, 90, U16Bytes(i.dayOfYear)) && At(b, 92, U16Bytes(i.year))
  {
    hide At, U16Bytes, Join;
    var w, fields := RawHeaders.IDENTITY_WIDTHS, RawHeaders.IdentityFields(i);
    assert HaveWidths(fields, w);
    assert Offset(w, 1) == 4 && Offset(w, 2) == 6 && Offset(w, 3) == 8;
    assert Offset(w, 4) == 24 && Offset(w, 5) == 25 && Offset(w, 6) == 26;
    assert Offset(w, 7) == 58 && Offset(w, 8) == 90 && Offset(w, 9) == 92;
    forall k | 0 <= k < 10 ensures At(Join(fields), Offset(w, k), fields[k]) {
      FieldAt(fields, w, k);
    }
  }

  lemma LayoutLayout(l: RawHeaders.Layout)
    requires |l.byReturn| == 5
    ensures var b := Join(RawHeaders.LayoutFields(l));
            && At(b, 0, U16Bytes(l.headerSize)) && At(b, 2, U32Bytes(l.offsetToPointData))
            && At(b, 6, U32Bytes(l.numberOfVlrs)) && At(b, 10, [l.formatId]) && At(b, 11, U16Bytes(l.recordLength))
            && At(b, 13, U32Bytes(l.numberOfPointRecords)) && At(b, 17, U32sBytes(l.byReturn))
  {
    hide At, U16Bytes, U32Bytes, U32sBytes, Join;
    var w, fields := RawHeaders.LAYOUT_WIDTHS, RawHeaders.LayoutFields(l);
    assert HaveWidths(fields, w);
    assert Offset(w, 1) == 2 && Offset(w, 2) == 6 && Offset(w, 3) == 10;
    assert Offset(w, 4) == 11 && Offset(w, 5) == 13 && Offset(w, 6) == 17;
    forall k | 0 <= k < 7 ensures At(Join(fields), Offset(w, k), fields[k]) {
      FieldAt(fields, w, k);
    }
  }

  /** The part of the header block that all versions have. */
  lemma FixedLayout(s: seq<byte>, r: RawHeaders.RawHeader)
    requires RawHeaders.WellFormed(r) && At(s, 0, RawHeaders.EncodeRawHeader(r))
    ensures var i, l, e := r.identity, r.layout, r.extents;
            && At(s, 0, i.signature) && At(s, 4, U16Bytes(i.fileSourceId)) && At(s, 6, U16Bytes(i.globalEncoding))
            && At(s, 8, i.guid) && At(s, 24, [i.version.major]) && At(s, 25, [i.version.minor])
            && At(s, 26, i.systemIdentifier) && At(s, 58, i.generatingSoftware)
            && At(s, 90, U16Bytes(i.dayOfYear)) && At(s, 92, U16Bytes(i.year))
            && At(s, 94, U16Bytes(l.headerSize)) && At(s, 96, U32Bytes(l.offsetToPointData))
            && At(s, 100, U32Bytes(l.numberOfVlrs)) && At(s, 104, [l.formatId]) && At(s, 105, U16Bytes(l.recordLength))
            && At(s, 107, U32Bytes(l.numberOfPointRecords))
    ensures forall k | 0 <= k < 5 :: At(s, 111 + 4 * k, U32Bytes(r.layout.byReturn[k]))
  {
    hide At, U16Bytes, U32Bytes, U32sBytes, Join, RawHeaders.EncodeRawHeader, RawHeaders.IdentityFields;
    hide RawHeaders.LayoutFields, RawHeaders.ExtentWords, RawHeaders.WaveformBytes, RawHeaders.EvlrBytes;
    hide RawHeaders.LargeFileBytes;
    RawHeaders.PartsAt(s, 0, r);
    IdentityLayout(r.identity);
    LayoutLayout(r.layout);
    var i, l := Join(RawHeaders.IdentityFields(r.identity)), Join(RawHeaders.LayoutFields(r.layout));
    forall at: nat, b: seq<byte> | At(i, at, b) ensures At(s, at, b) {
      AtInside(s, 0, i, at, b);
    }
    forall at: nat, b: seq<byte> | At(l, at, b) ensures At(s, 94 + at, b) {
      AtInside(s, 94, l, at, b);
    }
    forall k | 0 <= k < 5 ensures At(s, 111 + 4 * k, U32Bytes(r.layout.byReturn[k])) {
      U32sAt(r.layout.byReturn, k);
      AtInside(s, 111, U32sBytes(r.layout.byReturn), 4 * k, U32Bytes(r.layout.byReturn[k]));
    }
  }

  /** Scales, offsets and bounds. */
  lemma ExtentsLayout(s: seq<byte>, r: RawHeaders.RawHeader)
    requires RawHeaders.WellFormed(r) && At(s, 0, RawHeaders.EncodeRawHeader(r))
    ensures var e := r.extents;
            && At(s, 131, U64Bytes(e.xScale)) && At(s, 139, U64Bytes(e.yScale)) && At(s, 147, U64Bytes(e.zScale))
            && At(s, 155, U64Bytes(e.xOffset)) && At(s, 163, U64Bytes(e.yOffset)) && At(s, 171, U64Bytes(e.zOffset))
            && At(s, 179, U64Bytes(e.maxX)) && At(s, 187, U64Bytes(e.minX)) && At(s, 195, U64Bytes(e.maxY))
            && At(s, 203, U64Bytes(e.minY)) && At(s, 211, U64Bytes(e.maxZ)) && At(s, 219, U64Bytes(e.minZ))
  {
    hide At, U64Bytes, U64sBytes, Join, RawHeaders.EncodeRawHeader, RawHeaders.IdentityFields;
    hide RawHeaders.LayoutFields, RawHeaders.WaveformBytes, RawHeaders.EvlrBytes, RawHeaders.LargeFileBytes;
    RawHeaders.PartsAt(s, 0, r);
    var w := RawHeaders.ExtentWords(r.extents);
    forall k | 0 <= k < 12 ensures At(s, 131 + 8 * k, U64Bytes(w[k])) {
      U64sAt(w, k);
      AtInside(s, 131, U64sBytes(w), 8 * k, U64Bytes(w[k]));
    }
    assert At(s, 131 + 8 * 0, U64Bytes(w[0])) && At(s, 131 + 8 * 1, U64Bytes(w[1]));
    assert At(s, 131 + 8 * 2, U64Bytes(w[2])) && At(s, 131 + 8 * 3, U64Bytes(w[3]));
    assert At(s, 131 + 8 * 4, U64Bytes(w[4])) && At(s, 131 + 8 * 5, U64Bytes(w[5]));
    assert At(s, 131 + 8 * 6, U64Bytes(w[6])) && At(s, 131 + 8 * 7, U64Bytes(w[7]));
    assert At(s, 131 + 8 * 8, U64Bytes(w[8])) && At(s, 131 + 8 * 9, U64Bytes(w[9]));
    assert At(s, 131 + 8 * 10, U64Bytes(w[10])) && At(s, 131 + 8 * 11, U64Bytes(w[11]));
  }

  /** The fields of the later versions, and the padding. */
  lemma VersionLayout(s: seq<byte>, r: RawHeaders.RawHeader)
    requires RawHeaders.WellFormed(r) && At(s, 0, RawHeaders.EncodeRawHeader(r)) && r.Version().major == 1
    ensures var m := r.Version().minor;
            && (m <= 2 ==> At(s, 227, r.padding))
            && (m == 3 || m == 4 ==> At(s, 227, U64Bytes(match r.startOfWaveform case Some(n) => n case None => 0)))
            && (m == 3 ==> At(s, 235, r.padding))
            && (m == 4 && r.evlr.Some? ==>
                  && At(s, 235, U64Bytes(r.evlr.value.startOfFirstEvlr))
                  && At(s, 243, U32Bytes(r.evlr.value.numberOfEvlrs)))
            && (m == 4 && r.evlr.None? ==> At(s, 235, U64Bytes(0)) && At(s, 243, U32Bytes(0)))
            && (m == 4 && r.largeFile.Some? ==>
                  && At(s, 247, U64Bytes(r.largeFile.value.numberOfPointRecords))
                  && forall k | 0 <= k < 15 :: At(s, 255 + 8 * k, U64Bytes(r.largeFile.value.byReturn[k])))
            && (m == 4 ==> At(s, 375, r.padding))
  {
    hide At, U32Bytes, U64Bytes, U64sBytes, Join, RawHeaders.EncodeRawHeader, RawHeaders.IdentityFields;
    hide RawHeaders.LayoutFields, RawHeaders.ExtentWords;
    RawHeaders.PartsAt(s, 0, r);
    if r.Version().minor == 4 {
      var e := match r.evlr case Some(e) => e case None => RawHeaders.NO_EVLR;
      AtAppend(s, 235, U64Bytes(e.startOfFirstEvlr), U32Bytes(e.numberOfEvlrs));
      if r.largeFile.Some? {
        var l := r.largeFile.value;
        AtAppend(s, 247, U64Bytes(l.numberOfPointRecords), U64sBytes(l.byReturn));
        forall k | 0 <= k < 15 ensures At(s, 255 + 8 * k, U64Bytes(l.byReturn[k])) {
          U64sAt(l.byReturn, k);
          AtInside(s, 255, U64sBytes(l.byReturn), 8 * k, U64Bytes(l.byReturn[k]));
        }
      }
    }
  }

  // What a header is written as

  function Bit(b: bool, value: nat): nat {
    if b then value else 0
  }

  /** The size of the header block without padding. */
  function BlockSize(minor: u8): nat {
    if minor <= 2 then 227 else if minor == 3 then 235 else 375
  }

  /** A count as the legacy fields hold it. */
  function Legacy(n: u64): u32 {
    if n <= 0xFFFF_FFFF then n else 0
  }

  function ReturnCount(h: Header, k: u8): u64 {
    if k in h.byReturn then h.byReturn[k] else 0
  }

  lemma RawIdentityOf(fp: Fp, h: Header, raw: RawHeaders.RawHeader)
    requires Writable(h) && HeaderIntoRaw(fp, h) == Ok(raw)
    ensures var i := raw.identity;
            && i.signature == [0x4C, 0x41, 0x53, 0x46] && i.fileSourceId == h.fileSourceId && i.guid == h.guid
            && i.globalEncoding == Bit(h.gpsStandard, 1) + Bit(h.hasSyntheticReturnNumbers, 8)
                                   + Bit(h.hasWktCrs || h.pointFormat.isExtended, 16)
            && i.version == h.version && |h.systemIdentifier| <= 32 && |h.generatingSoftware| <= 32
            && i.systemIdentifier == h.systemIdentifier + Zeros(32 - |h.systemIdentifier|)
            && i.generatingSoftware == h.generatingSoftware + Zeros(32 - |h.generatingSoftware|)
            && i.dayOfYear == (if h.date.Some? then h.date.value.ordinal else 0)
            && i.year == (if h.date.Some? then h.date.value.year % 0x1_0000 else 0)
  {
    hide Adapt, Sound, OffsetToPointData, LegacyFits, LegacyCounts, LargeCounts, Format.ToWritableU8, Zeros;
  }

  lemma RawLayoutOf(fp: Fp, h: Header, raw: RawHeaders.RawHeader)
    requires Writable(h) && HeaderIntoRaw(fp, h) == Ok(raw)
    ensures var l := raw.layout;
            && l.headerSize == BlockSize(h.version.minor) + |h.padding| && raw.padding == h.padding
            && l.offsetToPointData == l.headerSize + VlrsLen(h.vlrs, false) + |h.vlrPadding|
            && l.numberOfVlrs == |h.vlrs| && l.recordLength == h.pointFormat.Len()
            && NewFormat(l.formatId) == Ok(h.pointFormat.(extraBytes := 0))
            && l.numberOfPointRecords == Legacy(h.numberOfPoints)
            && |l.byReturn| == 5 && forall k | 0 <= k < 5 :: l.byReturn[k] == Legacy(ReturnCount(h, k + 1))
  {
    hide Adapt, LasStr, GlobalEncoding, LargeCounts, LegacyFits, VlrsLen, Format.Len, Format.ToWritableU8, NewFormat;
    hide LeastOffender, LeastKeyFrom, SupportsPointFormat;
    FormatCodesAreInvertible(0, h.pointFormat);
  }

  lemma RawCountsOf(fp: Fp, h: Header, raw: RawHeaders.RawHeader)
    requires Writable(h) && HeaderIntoRaw(fp, h) == Ok(raw)
    ensures raw.startOfWaveform == None
    ensures h.evlrs == [] ==> raw.evlr == None
    ensures h.evlrs != [] && h.startOfFirstEvlr.Some? ==>
              |h.evlrs| <= U32_MAX && raw.evlr == Some(RawHeaders.Evlr(h.startOfFirstEvlr.value, |h.evlrs|))
    ensures && raw.largeFile.Some? && raw.largeFile.value.numberOfPointRecords == h.numberOfPoints
            && |raw.largeFile.value.byReturn| == 15
            && forall k | 0 <= k < 15 :: raw.largeFile.value.byReturn[k] == ReturnCount(h, k + 1)
  {
    hide Adapt, LasStr, GlobalEncoding, LegacyCounts, LegacyFits, VlrsLen, Format.Len, Format.ToWritableU8, Sound;
    hide LeastOffender, LeastKeyFrom, OffsetToPointData;
  }

  lemma RawExtentsOf(fp: Fp, h: Header, raw: RawHeaders.RawHeader)
    requires Writable(h) && HeaderIntoRaw(fp, h) == Ok(raw)
    ensures Adapt(fp, h.bounds, TransformsOf(fp, h)).Ok?
    ensures var e, t, b := raw.extents, h.transforms, Adapt(fp, h.bounds, TransformsOf(fp, h)).value;
            && e.xScale == t.x.scale && e.yScale == t.y.scale && e.zScale == t.z.scale
            && e.xOffset == t.x.offset && e.yOffset == t.y.offset && e.zOffset == t.z.offset
            && e.maxX == fp.enc(b.max.x) && e.maxY == fp.enc(b.max.y) && e.maxZ == fp.enc(b.max.z)
            && e.minX == fp.enc(b.min.x) && e.minY == fp.enc(b.min.y) && e.minZ == fp.enc(b.min.z)
  {
    hide Adapt, LasStr, GlobalEncoding, LegacyCounts, LegacyFits, LargeCounts, VlrsLen, Format.Len, Sound;
    hide Format.ToWritableU8, LeastOffender, LeastKeyFrom, OffsetToPointData;
  }

  lemma BlockIsRaw(fp: Fp, h: Header, raw: RawHeaders.RawHeader)
    requires Writable(h) && HeaderIntoRaw(fp, h) == Ok(raw)
    ensures RawHeaders.WellFormed(raw) && raw.Version() == h.version && h.version.major == 1 && h.version.minor <= 4
    ensures HeaderBlock(fp, h) == Ok(RawHeaders.EncodeRawHeader(raw))
    ensures At(RawHeaders.EncodeRawHeader(raw), 0, RawHeaders.EncodeRawHeader(raw))
  {
    hide RawHeaders.EncodeRawHeader;
    RawIdentityOf(fp, h, raw);
    var b := RawHeaders.EncodeRawHeader(raw);
    assert b[0..|b|] == b;
  }

  /** Where the header block of a header has its identification and its layout. */
  lemma BlockIdentity(fp: Fp, h: Header)
    requires Writable(h) && HeaderBlock(fp, h).Ok?
    ensures |h.systemIdentifier| <= 32 && |h.generatingSoftware| <= 32
    ensures var s := HeaderBlock(fp, h).value;
            && At(s, 0, [0x4C, 0x41, 0x53, 0x46]) && At(s, 4, U16Bytes(h.fileSourceId))
            && At(s, 6, U16Bytes(Bit(h.gpsStandard, 1) + Bit(h.hasSyntheticReturnNumbers, 8)
                                 + Bit(h.hasWktCrs || h.pointFormat.isExtended, 16)))
            && At(s, 8, h.guid) && At(s, 24, [h.version.major]) && At(s, 25, [h.version.minor])
            && At(s, 26, h.systemIdentifier + Zeros(32 - |h.systemIdentifier|))
            && At(s, 58, h.generatingSoftware + Zeros(32 - |h.generatingSoftware|))
            && At(s, 90, U16Bytes(if h.date.Some? then h.date.value.ordinal else 0))
            && At(s, 92, U16Bytes(if h.date.Some? then h.date.value.year % 0x1_0000 else 0))
  {
    hide At, U16Bytes, U32Bytes, Zeros, RawHeaders.EncodeRawHeader, Sound;
    var raw := HeaderIntoRaw(fp, h).value;
    BlockIsRaw(fp, h, raw);
    FixedLayout(HeaderBlock(fp, h).value, raw);
    RawIdentityOf(fp, h, raw);
  }

  /** Where it has its counts. The legacy fields hold what fits them, at every version. */
  lemma BlockCounts(fp: Fp, h: Header)
    requires Writable(h) && HeaderBlock(fp, h).Ok?
    ensures var s := HeaderBlock(fp, h).value;
            && At(s, 107, U32Bytes(Legacy(h.numberOfPoints)))
            && (forall k | 0 <= k < 5 :: At(s, 111 + 4 * k, U32Bytes(Legacy(ReturnCount(h, k + 1)))))
            && (h.version.minor == 4 ==>
                  && At(s, 247, U64Bytes(h.numberOfPoints))
                  && forall k | 0 <= k < 15 :: At(s, 255 + 8 * k, U64Bytes(ReturnCount(h, k + 1))))
  {
    hide At, U16Bytes, U32Bytes, U64Bytes, RawHeaders.EncodeRawHeader, Sound, Legacy, ReturnCount, HeaderIntoRaw;
    var raw := HeaderIntoRaw(fp, h).value;
    BlockIsRaw(fp, h, raw);
    FixedLayout(HeaderBlock(fp, h).value, raw);
    VersionLayout(HeaderBlock(fp, h).value, raw);
    RawLayoutOf(fp, h, raw);
    RawCountsOf(fp, h, raw);
    var s := HeaderBlock(fp, h).value;
    forall k | 0 <= k < 5 ensures At(s, 111 + 4 * k, U32Bytes(Legacy(ReturnCount(h, k + 1)))) {
      assert raw.layout.byReturn[k] == Legacy(ReturnCount(h, k + 1));
    }
    if h.version.minor == 4 {
      forall k | 0 <= k < 15 ensures At(s, 255 + 8 * k, U64Bytes(ReturnCount(h, k + 1))) {
        assert raw.largeFile.value.byReturn[k] == ReturnCount(h, k + 1);
      }
    }
  }

  /** Where it says how the file is laid out. */
  lemma BlockOffsets(fp: Fp, h: Header)
    requires Writable(h) && Preamble(fp, h).Ok?
    ensures HeaderBlock(fp, h).Ok? && |Preamble(fp, h).value| <= U32_MAX
    ensures |h.vlrs| <= U32_MAX && BlockSize(h.version.minor) + |h.padding| <= U16_MAX
    ensures var s, m := HeaderBlock(fp, h).value, h.version.minor;
            && At(s, 94, U16Bytes(BlockSize(m) + |h.padding|)) && At(s, 96, U32Bytes(|Preamble(fp, h).value|))
            && At(s, 100, U32Bytes(|h.vlrs|)) && At(s, 105, U16Bytes(h.pointFormat.Len()))
            && At(s, BlockSize(m), h.padding)
            && (m == 3 || m == 4 ==> At(s, 227, U64Bytes(0)))
            && (m == 4 && h.evlrs == [] ==> At(s, 235, U64Bytes(0)) && At(s, 243, U32Bytes(0)))
            && (m == 4 && h.evlrs != [] && h.startOfFirstEvlr.Some? ==>
                  && |h.evlrs| <= U32_MAX
                  && At(s, 235, U64Bytes(h.startOfFirstEvlr.value)) && At(s, 243, U32Bytes(|h.evlrs|)))
  {
    hide At, U16Bytes, U32Bytes, U64Bytes, RawHeaders.EncodeRawHeader, Sound, HeaderIntoRaw, EncodeVlrs, VlrsLen;
    hide Format.Len;
    var raw := HeaderIntoRaw(fp, h).value;
    BlockIsRaw(fp, h, raw);
    PreambleLength(fp, h);
    FixedLayout(HeaderBlock(fp, h).value, raw);
    VersionLayout(HeaderBlock(fp, h).value, raw);
    RawLayoutOf(fp, h, raw);
    RawCountsOf(fp, h, raw);
  }

  /** Where it has its format, its transforms and its box. */
  lemma BlockExtents(fp: Fp, h: Header)
    requires Writable(h) && HeaderBlock(fp, h).Ok?
    ensures Adapt(fp, h.bounds, TransformsOf(fp, h)).Ok?
    ensures exists id: u8 ::
              NewFormat(id) == Ok(h.pointFormat.(extraBytes := 0)) && At(HeaderBlock(fp, h).value, 104, [id])
    ensures var s, t, b := HeaderBlock(fp, h).value, h.transforms, Adapt(fp, h.bounds, TransformsOf(fp, h)).value;
            && At(s, 131, U64Bytes(t.x.scale)) && At(s, 139, U64Bytes(t.y.scale)) && At(s, 147, U64Bytes(t.z.scale))
            && At(s, 155, U64Bytes(t.x.offset)) && At(s, 163, U64Bytes(t.y.offset)) && At(s, 171, U64Bytes(t.z.offset))
            && At(s, 179, U64Bytes(fp.enc(b.max.x))) && At(s, 187, U64Bytes(fp.enc(b.min.x)))
            && At(s, 195, U64Bytes(fp.enc(b.max.y))) && At(s, 203, U64Bytes(fp.enc(b.min.y)))
            && At(s, 211, U64Bytes(fp.enc(b.max.z))) && At(s, 219, U64Bytes(fp.enc(b.min.z)))
  {
    hide At, U16Bytes, U32Bytes, U64Bytes, RawHeaders.EncodeRawHeader, Sound, HeaderIntoRaw, VlrsLen, Format.Len;
    hide NewFormat, Adapt, TransformsOf;
    var raw := HeaderIntoRaw(fp, h).value;
    BlockIsRaw(fp, h, raw);
    FixedLayout(HeaderBlock(fp, h).value, raw);
    ExtentsLayout(HeaderBlock(fp, h).value, raw);
    RawLayoutOf(fp, h, raw);
    RawExtentsOf(fp, h, raw);
  }

  /** The header of a finished run: its legacy count is the number of points whenever that has 32 bits, so that readers
      of older versions see them; at 1.4 the 64-bit count is. */
  lemma FinishedRunCounts(fp: Fp, h: Header, ps: seq<Point>, start: nat)
    requires Writable(h) && Fits(h, ps, start)
    requires var k := FinalOf(fp, h, ps, start); k.pointFormat.LenFits() && |k.guid| == 16 && HeaderBlock(fp, k).Ok?
    ensures var s := HeaderBlock(fp, FinalOf(fp, h, ps, start)).value;
            && (|ps| <= 0xFFFF_FFFF ==> At(s, 107, U32Bytes(|ps|)))
            && (|ps| > 0xFFFF_FFFF ==> At(s, 107, U32Bytes(0)))
            && (h.version.minor == 4 ==> At(s, 247, U64Bytes(|ps|)))
  {
    hide At, U32Bytes, U64Bytes, HeaderBlock, FinalOf, IsExtent, SumTo, Writable;
    var k := FinalOf(fp, h, ps, start);
    FinalStatistics(fp, h, ps, start);
    BlockCounts(fp, k);
  }

  // Variable length records

  /** A record has a header of 54 bytes, or 60 if it is extended, and its data behind it. */
  lemma RecordLayout(r: RawVlr)
    requires WellFormed(r)
    ensures var s, x := EncodeRawVlr(r), r.recordLength.Extended?;
            && At(s, 0, U16Bytes(r.reserved)) && At(s, 2, r.userId) && At(s, 18, U16Bytes(r.recordId))
            && (!x ==> At(s, 20, U16Bytes(|r.data|)) && At(s, 22, r.description) && At(s, 54, r.data))
            && (x ==> At(s, 20, U64Bytes(|r.data|)) && At(s, 28, r.description) && At(s, 60, r.data))
            && |s| == |r.data| + if x then 60 else 54
  {
    hide At, U16Bytes, U64Bytes, Join;
    var w, fields, s := VlrWidths(r.recordLength.Extended?), VlrFields(r), EncodeRawVlr(r);
    VlrFieldsHaveWidths(r);
    assert Offset(w, 1) == 2;
    assert Offset(w, 2) == 18;
    assert Offset(w, 3) == 20;
    assert Offset(w, 4) == 20 + w[3];
    WholeAt(s);
    AtAppend(s, 0, Join(fields), r.data);
    forall k | 0 <= k < 5 ensures At(s, Offset(w, k), fields[k]) {
      FieldAt(fields, w, k);
      AtInside(s, 0, Join(fields), Offset(w, k), fields[k]);
    }
  }

  /** A record as users see it is written with a reserved field of zero and its strings filled up with zeros. */
  lemma UserRecordLayout(v: Vlr, extended: bool)
    requires EncodeVlr(v, extended).Ok? && |v.data| <= U64_MAX
    ensures |v.userId| <= 16 && |v.description| <= 32 && (!extended ==> |v.data| <= 65535)
    ensures var s := EncodeVlr(v, extended).value;
            && At(s, 0, [0, 0]) && At(s, 2, v.userId + Zeros(16 - |v.userId|)) && At(s, 18, U16Bytes(v.recordId))
            && (!extended ==>
                  && At(s, 20, U16Bytes(|v.data|)) && At(s, 22, v.description + Zeros(32 - |v.description|))
                  && At(s, 54, v.data))
            && (extended ==>
                  && At(s, 20, U64Bytes(|v.data|)) && At(s, 28, v.description + Zeros(32 - |v.description|))
                  && At(s, 60, v.data))
  {
    hide At, U16Bytes, U64Bytes, EncodeRawVlr, Zeros;
    RecordLayout(VlrIntoRaw(v, extended).value);
    U16BytesAre(0, 0);
  }

  lemma WholeAt(s: seq<byte>)
    ensures At(s, 0, s)
  {
    assert s[0..|s|] == s;
  }

  // Point data records

  function WriteWidths(f: Format): seq<nat> {
    [4, 4, 4, 2, if f.isExtended then 3 else 2, if f.isExtended then 3 else 2, 2,
     if f.hasGpsTime then 8 else 0, if f.hasColor then 6 else 0, if f.hasNir then 2 else 0,
     if f.hasWaveform then 29 else 0, f.extraBytes]
  }

  /** Where the optional attributes begin: behind the GPS time, behind the colour and behind NIR. */
  function AfterTime(f: Format): nat {
    (if f.isExtended then 22 else 20) + if f.hasGpsTime then 8 else 0
  }

  function AfterColor(f: Format): nat {
    AfterTime(f) + if f.hasColor then 6 else 0
  }

  function AfterNir(f: Format): nat {
    AfterColor(f) + if f.hasNir then 2 else 0
  }

  lemma WriteOffsets(f: Format)
    ensures var w := WriteWidths(f);
            && Offset(w, 0) == 0 && Offset(w, 1) == 4 && Offset(w, 2) == 8 && Offset(w, 3) == 12 && Offset(w, 4) == 14
            && Offset(w, 5) == (if f.isExtended then 17 else 16) && Offset(w, 6) == (if f.isExtended then 20 else 18)
            && Offset(w, 7) == (if f.isExtended then 22 else 20)
            && Offset(w, 8) == AfterTime(f) && Offset(w, 9) == AfterColor(f) && Offset(w, 10) == AfterNir(f)
            && Offset(w, 11) == AfterNir(f) + if f.hasWaveform then 29 else 0
  {
    var w := WriteWidths(f);
    assert Offset(w, 1) == 4;
    assert Offset(w, 2) == 8;
    assert Offset(w, 3) == 12;
    assert Offset(w, 4) == 14;
    assert Offset(w, 5) == if f.isExtended then 17 else 16;
    assert Offset(w, 6) == if f.isExtended then 20 else 18;
    assert Offset(w, 7) == if f.isExtended then 22 else 20;
    assert Offset(w, 8) == AfterTime(f);
    assert Offset(w, 9) == AfterColor(f);
    assert Offset(w, 10) == AfterNir(f);
  }

  lemma FieldsAt(fp: Fp, p: RawPoint, f: Format, flags: seq<byte>)
    requires |p.extraBytes| == f.extraBytes && p.flags.Stored(f.isExtended) == Ok(flags)
    ensures EncodePoint(fp, p, f).Ok? && |WriteWidths(f)| == 12
    ensures forall k | 0 <= k < 12 ::
              At(EncodePoint(fp, p, f).value, Offset(WriteWidths(f), k), PointFields(fp, p, f, flags)[k])
  {
    hide At, Join, Flags.Stored, Offset, NirBytes, WaveformBytes;
    var fields, w := PointFields(fp, p, f, flags), WriteWidths(f);
    PointCodec.StoredLength(p.flags, f.isExtended);
    PointCodec.WaveformBytesLength(p, f);
    NirBytesLength(p, f);
    assert HaveWidths(fields, w);
    forall k | 0 <= k < 12 ensures At(Join(fields), Offset(w, k), fields[k]) {
      FieldAt(fields, w, k);
    }
  }

  lemma NirBytesLength(p: RawPoint, f: Format)
    ensures |NirBytes(p, f)| == if f.hasNir then 2 else 0
  {
  }

  /** The leading fields of a record, in both layouts. */
  lemma PointLayout(fp: Fp, p: RawPoint, f: Format, flags: seq<byte>)
    requires |p.extraBytes| == f.extraBytes && p.flags.Stored(f.isExtended) == Ok(flags)
    ensures EncodePoint(fp, p, f).Ok?
    ensures var s := EncodePoint(fp, p, f).value;
            && At(s, 0, I32Bytes(p.x)) && At(s, 4, I32Bytes(p.y)) && At(s, 8, I32Bytes(p.z))
            && At(s, 12, U16Bytes(p.intensity)) && At(s, 14, flags)
            && (!f.isExtended ==>
                  At(s, 16, [I8Byte(StoredRank(fp, p.scanAngle))]) && At(s, 17, [p.userData])
                  && At(s, 18, U16Bytes(p.pointSourceId)))
            && (f.isExtended ==>
                  At(s, 17, [p.userData]) && At(s, 18, I16Bytes(StoredScaled(fp, p.scanAngle)))
                  && At(s, 20, U16Bytes(p.pointSourceId)))
  {
    hide At, Join, Flags.Stored, Offset, NirBytes, WaveformBytes, I32Bytes, U16Bytes, I16Bytes, StoredRank;
    hide StoredScaled, I8Byte, EncodePoint;
    FieldsAt(fp, p, f, flags);
    WriteOffsets(f);
    var s, w, fields := EncodePoint(fp, p, f).value, WriteWidths(f), PointFields(fp, p, f, flags);
    assert At(s, Offset(w, 0), fields[0]) && At(s, Offset(w, 1), fields[1]) && At(s, Offset(w, 2), fields[2]);
    assert At(s, Offset(w, 3), fields[3]) && At(s, Offset(w, 4), fields[4]) && At(s, Offset(w, 5), fields[5]);
    assert At(s, Offset(w, 6), fields[6]);
    if f.isExtended {
      AtAppend(s, 17, [p.userData], I16Bytes(StoredScaled(fp, p.scanAngle)));
    } else {
      assert fields[5] == [I8Byte(StoredRank(fp, p.scanAngle))] + [p.userData];
      AtAppend(s, 16, [I8Byte(StoredRank(fp, p.scanAngle))], [p.userData]);
    }
  }

  /** The optional attributes. What a point lacks is written as zeros, what the format lacks is not written. */
  lemma AttributeLayout(fp: Fp, p: RawPoint, f: Format, flags: seq<byte>)
    requires |p.extraBytes| == f.extraBytes && p.flags.Stored(f.isExtended) == Ok(flags)
    ensures EncodePoint(fp, p, f).Ok?
    ensures var s, base := EncodePoint(fp, p, f).value, if f.isExtended then 22 else 20;
            && (f.hasGpsTime ==> At(s, base, U64Bytes(if p.gpsTime.Some? then p.gpsTime.value else 0)))
            && (f.hasColor ==>
                  var at, c := AfterTime(f), if p.color.Some? then p.color.value else Color(0, 0, 0);
                  At(s, at, U16Bytes(c.red)) && At(s, at + 2, U16Bytes(c.green)) && At(s, at + 4, U16Bytes(c.blue)))
            && (f.hasNir ==> At(s, AfterColor(f), U16Bytes(if p.nir.Some? then p.nir.value else 0)))
            && At(s, AfterNir(f) + (if f.hasWaveform then 29 else 0), p.extraBytes)
  {
    hide At, Join, Flags.Stored, Offset, WaveformBytes, U16Bytes, U64Bytes, EncodePoint, AngleAndUserData, I32Bytes;
    FieldsAt(fp, p, f, flags);
    WriteOffsets(f);
    var s, w, fields := EncodePoint(fp, p, f).value, WriteWidths(f), PointFields(fp, p, f, flags);
    assert At(s, Offset(w, 7), fields[7]) && At(s, Offset(w, 8), fields[8]) && At(s, Offset(w, 9), fields[9]);
    assert At(s, Offset(w, 11), fields[11]);
    if f.hasColor {
      var at, c := AfterTime(f), if p.color.Some? then p.color.value else Color(0, 0, 0);
      AtAppend(s, at, U16Bytes(c.red) + U16Bytes(c.green), U16Bytes(c.blue));
      AtAppend(s, at, U16Bytes(c.red), U16Bytes(c.green));
    }
  }

  /** The wave packet. */
  lemma WaveformLayout(fp: Fp, p: RawPoint, f: Format, flags: seq<byte>)
    requires |p.extraBytes| == f.extraBytes && p.flags.Stored(f.isExtended) == Ok(flags) && f.hasWaveform
    ensures EncodePoint(fp, p, f).Ok?
    ensures var s, at := EncodePoint(fp, p, f).value, AfterNir(f);
            var v := if p.waveform.Some? then p.waveform.value else Waveform(0, 0, 0, 0, 0, 0, 0);
            && At(s, at, [v.descriptorIndex]) && At(s, at + 1, U64Bytes(v.byteOffset))
            && At(s, at + 9, U32Bytes(v.packetSize)) && At(s, at + 13, U32Bytes(v.returnPointLocation))
            && At(s, at + 17, U32Bytes(v.xt)) && At(s, at + 21, U32Bytes(v.yt)) && At(s, at + 25, U32Bytes(v.zt))
  {
    hide At, Join, Flags.Stored, U16Bytes, U32Bytes, U64Bytes, EncodePoint, AngleAndUserData, I32Bytes, NirBytes;
    hide Offset, WaveformFields;
    FieldsAt(fp, p, f, flags);
    WriteOffsets(f);
    var s, at := EncodePoint(fp, p, f).value, AfterNir(f);
    assert At(s, Offset(WriteWidths(f), 10), PointFields(fp, p, f, flags)[10]);
    var v := if p.waveform.Some? then p.waveform.value else DEFAULT_WAVEFORM;
    WavePacketLayout(v);
    var b := Join(WaveformFields(v));
    forall k: nat, field: seq<byte> | At(b, k, field) ensures At(s, at + k, field) {
      AtInside(s, at, b, k, field);
    }
  }

  lemma WavePacketLayout(v: Waveform)
    ensures var b := Join(WaveformFields(v));
            && At(b, 0, [v.descriptorIndex]) && At(b, 1, U64Bytes(v.byteOffset))
            && At(b, 9, U32Bytes(v.packetSize)) && At(b, 13, U32Bytes(v.returnPointLocation))
            && At(b, 17, U32Bytes(v.xt)) && At(b, 21, U32Bytes(v.yt)) && At(b, 25, U32Bytes(v.zt))
  {
    hide At, Join, U32Bytes, U64Bytes;
    var w, fields := WAVEFORM_WIDTHS, WaveformFields(v);
    assert Offset(w, 1) == 1 && Offset(w, 2) == 9 && Offset(w, 3) == 13;
    assert Offset(w, 4) == 17 && Offset(w, 5) == 21 && Offset(w, 6) == 25;
    forall k | 0 <= k < 7 ensures At(Join(fields), Offset(w, k), fields[k]) {
      FieldAt(fields, w, k);
    }
  }

  /** The eleven point formats and their lengths. */
  lemma FormatTable()
    ensures NewFormat(0) == Ok(Format(false, false, false, false, false, 0, false)) && NewFormat(0).value.Len() == 20
    ensures NewFormat(1) == Ok(Format(true, false, false, false, false, 0, false)) && NewFormat(1).value.Len() == 28
    ensures NewFormat(2) == Ok(Format(false, true, false, false, false, 0, false)) && NewFormat(2).value.Len() == 26
    ensures NewFormat(3) == Ok(Format(true, true, false, false, false, 0, false)) && NewFormat(3).value.Len() == 34
    ensures NewFormat(4) == Ok(Format(true, false, false, true, false, 0, false)) && NewFormat(4).value.Len() == 57
    ensures NewFormat(5) == Ok(Format(true, true, false, true, false, 0, false)) && NewFormat(5).value.Len() == 63
    ensures NewFormat(6) == Ok(Format(true, false, true, false, false, 0, false)) && NewFormat(6).value.Len() == 30
    ensures NewFormat(7) == Ok(Format(true, true, true, false, false, 0, false)) && NewFormat(7).value.Len() == 36
    ensures NewFormat(8) == Ok(Format(true, true, true, false, true, 0, false)) && NewFormat(8).value.Len() == 38
    ensures NewFormat(9) == Ok(Format(true, false, true, true, false, 0, false)) && NewFormat(9).value.Len() == 59
    ensures NewFormat(10) == Ok(Format(true, true, true, true, true, 0, false)) && NewFormat(10).value.Len() == 67
  {
  }

  /** A code with the highest bit set stands for the compressed form of what its lowest six bits say. */
  lemma CompressedFormats(n: u8, id: u8, other: nat)
    requires n == 128 + 64 * other + id && other <= 1 && id < 64
    ensures NewFormat(n).Ok?
    ensures id <= 10 ==> NewFormat(n).value == NewFormat(id).value.(isCompressed := true)
    ensures id > 10 ==> NewFormat(n).value == Format(false, false, true, false, false, 0, true)
  {
  }

  // What a reader takes from where

  /** The transforms of any file come from the words at 131 to 178 of its header block. */
  lemma ReadTransforms(fp: Fp, s: seq<byte>, pos: nat)
    requires ReadHeader(fp, s, pos).Ok?
    ensures pos + 227 <= |s|
    ensures var t, p := TransformsOf(fp, ReadHeader(fp, s, pos).value.0), pos + 131;
            && t.x == Transform(fp.val(GetU64(s[p..p + 8])), fp.val(GetU64(s[p + 24..p + 32])))
            && t.y == Transform(fp.val(GetU64(s[p + 8..p + 16])), fp.val(GetU64(s[p + 32..p + 40])))
            && t.z == Transform(fp.val(GetU64(s[p + 16..p + 24])), fp.val(GetU64(s[p + 40..p + 48])))
  {
    hide ReadHeader, GetU64, RawHeaders.GetExtents, RawHeaders.ReadRawHeader;
    TransformsAreKept(fp, s, pos);
    ExtentsAreRead(s, pos);
    var p, e := pos + 131, s[pos + 131..pos + 227];
    ExtentsOfBytes(e);
    SliceWithin(s, p, p + 96, 0, 8);
    SliceWithin(s, p, p + 96, 8, 16);
    SliceWithin(s, p, p + 96, 16, 24);
    SliceWithin(s, p, p + 96, 24, 32);
    SliceWithin(s, p, p + 96, 32, 40);
    SliceWithin(s, p, p + 96, 40, 48);
  }

  lemma TransformsAreKept(fp: Fp, s: seq<byte>, pos: nat)
    requires ReadHeader(fp, s, pos).Ok?
    ensures RawHeaders.ReadRawHeader(s, pos).Ok?
    ensures var e, t := RawHeaders.ReadRawHeader(s, pos).value.0.extents, ReadHeader(fp, s, pos).value.0.transforms;
            && t.x == TransformWords(e.xScale, e.xOffset)
            && t.y == TransformWords(e.yScale, e.yOffset)
            && t.z == TransformWords(e.zScale, e.zOffset)
  {
    hide RawHeaders.ReadRawHeader, ReadVlrs, ReadEvlr, TakeAt, VlrsLen, FormatFromRaw, LasString, HistogramFromRaw;
    hide UnsupportedUse, Select, LeastAccepting, PointsFromRaw, BoundsFromRaw, DateFromRaw, SignedPadding;
  }

  lemma ExtentsAreRead(s: seq<byte>, pos: nat)
    requires RawHeaders.ReadRawHeader(s, pos).Ok?
    ensures pos + 227 <= |s|
    ensures RawHeaders.ReadRawHeader(s, pos).value.0.extents == RawHeaders.GetExtents(s[pos + 131..pos + 227])
  {
    hide RawHeaders.ReadVersionFields, RawHeaders.GetIdentity, RawHeaders.GetLayout, RawHeaders.GetExtents;
  }

  lemma ExtentsOfBytes(b: seq<byte>)
    requires |b| == 96
    ensures var e := RawHeaders.GetExtents(b);
            && e.xScale == GetU64(b[0..8]) && e.yScale == GetU64(b[8..16]) && e.zScale == GetU64(b[16..24])
            && e.xOffset == GetU64(b[24..32]) && e.yOffset == GetU64(b[32..40]) && e.zOffset == GetU64(b[40..48])
  {
    hide GetU64, GetU64s;
    GetU64sAt(b, 12, 0);
    GetU64sAt(b, 12, 1);
    GetU64sAt(b, 12, 2);
    GetU64sAt(b, 12, 3);
    GetU64sAt(b, 12, 4);
    GetU64sAt(b, 12, 5);
  }

  /** The coordinates of any record: the three leading integers, multiplied by the scale and added to the offset, with
      a rounding after each operation. */
  lemma ReadCoordinates(fp: Fp, record: seq<byte>, f: Format, t: Vector<Transform>)
    requires |record| == f.Len()
    ensures |record| >= 20
    ensures var p := NewPoint(fp, DecodePoint(record, f), t);
            && p.x == fp.rnd64(fp.rnd64(Distance(t.x.scale, GetI32(record[0..4]))) + t.x.offset)
            && p.y == fp.rnd64(fp.rnd64(Distance(t.y.scale, GetI32(record[4..8]))) + t.y.offset)
            && p.z == fp.rnd64(fp.rnd64(Distance(t.z.scale, GetI32(record[8..12]))) + t.z.offset)
  {
    hide DecodePoint, GetI32, AngleDegrees, Flags.ClearOverlapClass, Flags.ReturnNumber, Flags.NumberOfReturns;
    DecodedCoordinates(record, f);
  }

  lemma DecodedCoordinates(record: seq<byte>, f: Format)
    requires |record| == f.Len()
    ensures |record| >= 20
    ensures var raw := DecodePoint(record, f);
            raw.x == GetI32(record[0..4]) && raw.y == GetI32(record[4..8]) && raw.z == GetI32(record[8..12])
  {
    hide GetI32, GetU16, Split, GetWaveform, GetColor, Sum, Bits, GetI16, GetI8, GetU64;
    ReadWidthsSum(f);
    var w := ReadWidths(f);
    assert Offset(w, 1) == 4;
    assert Offset(w, 2) == 8;
    SplitField(record, w, 0);
    SplitField(record, w, 1);
    SplitField(record, w, 2);
  }
}
