/** Which runs of the writer succeed, in terms that a caller can test beforehand. */
module RunSuccess {
  import opened Wrappers
  import opened Bytes
  import opened Versions
  import opened Formats
  import opened Transforms
  import opened BoundingBoxes
  import opened VariableRecords
  import RawHeaders
  import opened RawPoints
  import opened Points
  import opened Headers
  import opened Builders
  import opened Statistics
  import opened HeaderFiles
  import opened Writers
  import opened RoundTrip
  import opened Layouts

  // Points

  /** The layout has room for the flags of a point. */
  predicate FlagsFit(p: Point, isExtended: bool) {
    && p.returnNumber <= (if isExtended then 15 else 7)
    && p.numberOfReturns <= (if isExtended then 15 else 7)
    && p.scannerChannel <= (if isExtended then 3 else 0)
    && (isExtended || p.classification <= 31)
  }

  predicate CoordinatesFit(fp: Fp, t: Vector<Transform>, p: Point) {
    CoordinateFits(fp, t.x, p.x) && CoordinateFits(fp, t.y, p.y) && CoordinateFits(fp, t.z, p.z)
  }

  lemma FlagsFitIff(p: Point, isExtended: bool)
    ensures FlagsFit(p, isExtended) <==> FlagsOf(p).Ok? && FlagsOf(p).value.Stored(isExtended).Ok?
  {
    hide Octet, Flags.ReturnNumber, Flags.NumberOfReturns, Flags.LeftToRight, Flags.IsEdgeOfFlightLine;
    hide Flags.IsSynthetic, Flags.IsKeyPoint, Flags.IsWithheld, Flags.IsOverlap, Flags.ScannerChannel;
    if FlagsOf(p).Ok? {
      FlagsReadBack(p, FlagsOf(p).value);
    }
  }

  /** A point can be stored exactly when it has the attributes of the format, its coordinates fit 32 bits and its
      flags fit the layout. */
  lemma StorableIff(fp: Fp, h: Header, p: Point)
    ensures Storable(fp, h, p)
            <==> && Matches(p, h.pointFormat)
                 && CoordinatesFit(fp, TransformsOf(fp, h), p)
                 && FlagsFit(p, h.pointFormat.isExtended)
  {
    hide TransformsOf, Matches, FlagsFit, FlagsOf, CoordinateFits, Inverse, Flags.Stored, AngleFromDegrees;
    var t := TransformsOf(fp, h);
    InverseSucceedsIff(fp, t.x, p.x);
    InverseSucceedsIff(fp, t.y, p.y);
    InverseSucceedsIff(fp, t.z, p.z);
    FlagsFitIff(p, h.pointFormat.isExtended);
  }

  /** A point that is counted, leaves 14 bytes in the stream and is not stored: return number 8 in format 0. */
  lemma EighthReturnIsNotStored(fp: Fp, t: Vector<TransformWords>)
    requires ExactRounding(fp)
    ensures var h := PlainHeader(t);
            var p := PlainPoint(TransformsOf(fp, h)).(returnNumber := 8);
            && Matches(p, h.pointFormat) && IntoRaw(fp, p, TransformsOf(fp, h)).Ok?
            && RecordOf(fp, p, h.pointFormat, TransformsOf(fp, h)).Err?
            && !Storable(fp, h, p)
  {
    hide EncodePoint, AngleFromDegrees, InverseWithRoundingMode, TransformOf;
    var h := PlainHeader(t);
    var p := PlainPoint(TransformsOf(fp, h)).(returnNumber := 8);
    OffsetIsZero(fp, TransformOf(fp, t.x));
    OffsetIsZero(fp, TransformOf(fp, t.y));
    OffsetIsZero(fp, TransformOf(fp, t.z));
    StorableIff(fp, h, p);
  }

  // Records and headers

  /** The strings of a record fit their fields. */
  predicate NamesFit(v: Vlr) {
    |v.userId| <= 16 && |v.description| <= 32
  }

  lemma {:induction false} RecordsEncodeIff(vs: seq<Vlr>, extended: bool)
    requires extended || forall v | v in vs :: !v.HasLargeData()
    ensures EncodeVlrs(vs, extended).Ok? <==> forall v | v in vs :: NamesFit(v)
  {
    hide EncodeVlr, NamesFit;
    if vs != [] {
      assert vs == [vs[0]] + vs[1..];
      assert forall v :: v in vs <==> v == vs[0] || v in vs[1..];
      RecordsEncodeIff(vs[1..], extended);
      RecordEncodesIff(vs[0], extended);
    }
  }

  lemma RecordEncodesIff(v: Vlr, extended: bool)
    requires extended || !v.HasLargeData()
    ensures EncodeVlr(v, extended).Ok? <==> NamesFit(v)
  {
  }

  /** One of the eleven point formats, whatever its extra bytes. */
  predicate IsStandard(f: Format) {
    exists n: u8 :: n <= 10 && NewFormat(n) == Ok(f.(extraBytes := 0, isCompressed := false))
  }

  lemma StandardFormatsHaveCodes(f: Format)
    ensures f.ToWritableU8().Ok? <==> IsStandard(f)
  {
    var g := f.(extraBytes := 0, isCompressed := false);
    assert f.ToU8() == g.ToU8() == g.ToWritableU8();
    FormatCodesAreInvertible(0, g);
    if f.ToU8().Ok? {
      assert f.ToU8().value <= 10;
    }
    if IsStandard(f) {
      var n: u8 :| n <= 10 && NewFormat(n) == Ok(g);
      FormatCodesAreInvertible(n, g);
    }
  }

  /** The metadata fit their fields in the file. */
  predicate MetadataFit(h: Header) {
    && |h.systemIdentifier| <= 32 && |h.generatingSoftware| <= 32
    && h.version.HeaderSize() + |h.padding| <= U16_MAX
    && h.version.HeaderSize() + |h.padding| + VlrsLen(h.vlrs, false) + |h.vlrPadding| <= U32_MAX
    && |h.vlrs| <= U32_MAX && |h.evlrs| <= U32_MAX
    && IsStandard(h.pointFormat)
  }

  /** The counts of a header fit theirs. */
  predicate CountsFit(h: Header) {
    && NumberOfPointsRaw(h).Ok? && LegacyFits(h.byReturn, h.version)
    && forall k | k in h.byReturn :: k <= 15
  }

  lemma HeaderEncodesIff(fp: Fp, h: Header)
    requires h.pointFormat.LenFits() && |h.guid| == 16
    ensures HeaderBlock(fp, h).Ok?
            <==> Adapt(fp, h.bounds, TransformsOf(fp, h)).Ok? && MetadataFit(h) && CountsFit(h)
  {
    hide Adapt, TransformsOf, IsStandard, LegacyFits, NumberOfPointsRaw, Format.ToWritableU8, Format.Len;
    hide Version.HeaderSize, VlrsLen;
    StandardFormatsHaveCodes(h.pointFormat);
  }

  /** The counts of a header give this error, for one of the entries of its histogram. */
  ghost predicate HistogramError(h: Header, e: Error) {
    exists k | k in h.byReturn ::
      || (k > 15 && e == InvalidReturnNumber(k))
      || (k > 5 && h.version != Version(1, 4) && e == InvalidReturnNumber(k))
      || (0 < k <= 5 && h.byReturn[k] > 0xFFFF_FFFF && h.version != Version(1, 4) && e == TooManyPoints(h.byReturn[k]))
  }

  lemma {:induction false} LeastOffenderOffends(h: Header, k: nat)
    requires h.version.major == 1 && h.version.minor <= 4
    requires exists j :: j in h.byReturn && k <= j && LegacyError(h.byReturn, h.version, j).Some?
    ensures HistogramError(h, LeastOffender(h.byReturn, h.version, k))
    decreases 256 - k
  {
    var j :| j in h.byReturn && k <= j && LegacyError(h.byReturn, h.version, j).Some?;
    if !(k in h.byReturn && LegacyError(h.byReturn, h.version, k).Some?) {
      LeastOffenderOffends(h, k + 1);
    }
  }

  lemma {:induction false} LeastKeyIsKey(m: map<u8, u64>, k: nat)
    requires exists j :: j in m && k <= j
    ensures LeastKeyFrom(m, k) in m && LeastKeyFrom(m, k) >= k
    decreases 256 - k
  {
    var j :| j in m && k <= j;
    if k !in m {
      LeastKeyIsKey(m, k + 1);
    }
  }

  lemma LeastKeyOffends(h: Header)
    requires exists k :: k in h.byReturn && k > 15
    ensures HistogramError(h, InvalidReturnNumber(LeastKeyFrom(h.byReturn, 16)))
  {
    var k :| k in h.byReturn && k > 15;
    assert k in h.byReturn && 16 <= k;
    LeastKeyIsKey(h.byReturn, 16);
  }

  /** Why a header cannot be written: the first of these that applies. */
  lemma HeaderErrorReason(fp: Fp, h: Header, e: Error)
    requires Writable(h) && HeaderBlock(fp, h) == Err(e)
    ensures var size := BlockSize(h.version.minor) + |h.padding|;
            var offset := size + VlrsLen(h.vlrs, false) + |h.vlrPadding|;
            if Adapt(fp, h.bounds, TransformsOf(fp, h)).Err? then e == InvalidInverseTransform
            else if |h.systemIdentifier| > 32 then e == StringTooLong(|h.systemIdentifier|)
            else if |h.generatingSoftware| > 32 then e == StringTooLong(|h.generatingSoftware|)
            else if size > 65535 then e == HeaderTooLarge(size)
            else if offset > 0xFFFF_FFFF then e == OffsetToPointDataTooLarge(offset)
            else if |h.vlrs| > 0xFFFF_FFFF then e == TooManyVlrs(|h.vlrs|)
            else if !IsStandard(h.pointFormat) then e == InvalidPointFormat
            else if h.numberOfPoints > 0xFFFF_FFFF && h.version != Version(1, 4)
            then e == TooManyPoints(h.numberOfPoints)
            else HistogramError(h, e) || (|h.evlrs| > 0xFFFF_FFFF && e == TooManyEvlrs(|h.evlrs|))
  {
    hide Adapt, TransformsOf, IsStandard, Format.Len, HeaderSizeOf, OffsetToPointData, NumberOfVlrsRaw;
    hide NumberOfPointsRaw, LegacyCountsRaw, LargeFileRaw, EvlrRaw, GlobalEncoding, Zeros, Sound, Format.ToWritableU8;
    hide HistogramError;
    hide DateRaw, RawHeaders.EncodeRawHeader, RawHeaders.WellFormed, BlockSize, VlrsLen;
    StandardFormatsHaveCodes(h.pointFormat);
    OnlyCodesAreMissing(h.pointFormat);
    AdaptErrorIs(fp, h.bounds, TransformsOf(fp, h));
    SizeErrors(h);
    CountErrors(h);
  }

  lemma SizeErrors(h: Header)
    requires Writable(h)
    ensures var size := BlockSize(h.version.minor) + |h.padding|;
            var offset := size + VlrsLen(h.vlrs, false) + |h.vlrPadding|;
            && (if size > 65535 then HeaderSizeOf(h) == Err(HeaderTooLarge(size)) else HeaderSizeOf(h).Ok?)
            && (size <= 65535 && offset > 0xFFFF_FFFF ==>
                  OffsetToPointData(h) == Err(OffsetToPointDataTooLarge(offset)))
            && (size <= 65535 && offset <= 0xFFFF_FFFF ==> OffsetToPointData(h).Ok?)
            && (if |h.vlrs| > 0xFFFF_FFFF then NumberOfVlrsRaw(h) == Err(TooManyVlrs(|h.vlrs|))
                else NumberOfVlrsRaw(h).Ok?)
            && (OffsetToPointData(h).Ok? && |h.evlrs| > 0xFFFF_FFFF ==> EvlrRaw(h) == Err(TooManyEvlrs(|h.evlrs|)))
            && (OffsetToPointData(h).Ok? && |h.evlrs| <= 0xFFFF_FFFF ==> EvlrRaw(h).Ok?)
  {
    hide VlrsLen, Format.Len, SupportsPointFormat;
  }

  lemma CountErrors(h: Header)
    requires Writable(h)
    ensures var n := h.numberOfPoints;
            if n > 0xFFFF_FFFF && h.version != Version(1, 4) then NumberOfPointsRaw(h) == Err(TooManyPoints(n))
            else NumberOfPointsRaw(h).Ok?
    ensures LegacyCountsRaw(h).Err? ==> HistogramError(h, LegacyCountsRaw(h).error)
    ensures LargeFileRaw(h).Err? ==> HistogramError(h, LargeFileRaw(h).error)
  {
    hide LegacyCounts, LargeCounts, LeastOffender, LeastKeyFrom, HistogramError, SupportsPointFormat;
    if !LegacyFits(h.byReturn, h.version) {
      LeastOffenderOffends(h, 0);
    }
    if !(forall k | k in h.byReturn :: k <= 15) {
      LeastKeyOffends(h);
    }
  }

  lemma OnlyCodesAreMissing(f: Format)
    ensures f.ToWritableU8().Err? ==> f.ToWritableU8().error == InvalidPointFormat
  {
  }

  lemma AdaptErrorIs(fp: Fp, b: Bounds, t: Vector<Transform>)
    ensures Adapt(fp, b, t).Err? ==> Adapt(fp, b, t).error == InvalidInverseTransform
  {
    hide InverseWithRoundingMode, Direct;
    forall e: Ext, t: Transform, mode: RoundingMode
      ensures Snap(fp, e, t, mode).Err? ==> Snap(fp, e, t, mode).error == InvalidInverseTransform
    {
      if e.Fin? {
        InverseSucceedsIff(fp, t, e.r);
      }
    }
  }

  // Runs

  lemma {:induction false} ReturnOccurs(ps: seq<Point>, k: u8)
    ensures Returns(ps, k) > 0 <==> exists i :: 0 <= i < |ps| && Octet(ps[i].returnNumber) == k
  {
    if ps != [] {
      var n := |ps| - 1;
      ReturnOccurs(ps[..n], k);
      assert forall i | 0 <= i < n :: ps[..n][i] == ps[i];
      if i :| 0 <= i < |ps| && Octet(ps[i].returnNumber) == k {
        assert i < n ==> Octet(ps[..n][i].returnNumber) == k;
      }
      if Returns(ps[..n], k) > 0 {
        var i :| 0 <= i < n && Octet(ps[..n][i].returnNumber) == k;
        assert Octet(ps[i].returnNumber) == k;
      }
    }
  }

  /** No point of the run has a higher return number. */
  predicate ReturnsUpTo(ps: seq<Point>, n: nat) {
    forall i :: 0 <= i < |ps| ==> Octet(ps[i].returnNumber) <= n
  }

  predicate KeysUpTo(m: map<u8, u64>, n: nat) {
    forall k | k in m :: k <= n
  }

  lemma KeysUpToIff(h: Header, ps: seq<Point>, n: nat)
    requires |ps| <= U64_MAX
    ensures KeysUpTo(AddedAll(Cleared(h), ps).byReturn, n) <==> ReturnsUpTo(ps, n)
  {
    hide AddedAll, Cleared, Returns, Octet;
    var m := AddedAll(Cleared(h), ps).byReturn;
    if KeysUpTo(m, n) {
      forall i | 0 <= i < |ps| ensures Octet(ps[i].returnNumber) <= n {
        HistogramCounts(h, ps, Octet(ps[i].returnNumber));
        ReturnOccurs(ps, Octet(ps[i].returnNumber));
      }
    }
    if ReturnsUpTo(ps, n) {
      forall k | k in m ensures k <= n {
        HistogramCounts(h, ps, k);
        ReturnOccurs(ps, k);
      }
    }
  }

  /** Before 1.4 there are at most 32-bit counts and five returns. */
  predicate RunCountsFit(h: Header, ps: seq<Point>) {
    h.version.Supports(LargeFiles) || (|ps| <= U32_MAX && ReturnsUpTo(ps, 5))
  }

  lemma RunCountsFitIff(h: Header, ps: seq<Point>)
    requires |ps| <= U64_MAX && ReturnsUpTo(ps, 15)
    ensures CountsFit(AddedAll(Cleared(h), ps)) <==> RunCountsFit(h, ps)
  {
    hide AddedAll, Cleared, ReturnsUpTo, Version.Supports;
    var k := AddedAll(Cleared(h), ps);
    OnlyVersionMatters(h, ps);
    PointCount(h, ps);
    KeysUpToIff(h, ps, 5);
    KeysUpToIff(h, ps, 15);
    if |ps| <= U32_MAX {
      forall r | r in k.byReturn ensures 0 < r && k.byReturn[r] <= U32_MAX {
        HistogramCounts(h, ps, r);
        ReturnsBound(ps, r);
      }
    }
  }

  lemma OnlyVersionMatters(h: Header, ps: seq<Point>)
    ensures AddedAll(Cleared(h), ps).version == h.version
  {
    OnlyStatisticsChange(Cleared(h), ps);
  }

  /** A box can be written around the run. */
  predicate RunBoxFits(fp: Fp, h: Header, ps: seq<Point>) {
    var t := TransformsOf(fp, h);
    BoxFits(fp, t.x, Xs(ps)) && BoxFits(fp, t.y, Ys(ps)) && BoxFits(fp, t.z, Zs(ps))
  }

  /** The bounds of a run can be adapted exactly when a box fits around it. */
  lemma AdaptSucceedsIff(fp: Fp, h: Header, b: Bounds, ps: seq<Point>)
    requires MonotoneRounding(fp) && IsExtent(b, ps)
    ensures Adapt(fp, b, TransformsOf(fp, h)).Ok? <==> RunBoxFits(fp, h, ps)
  {
    hide TransformsOf, BoxFits, Snap, IsLeast, IsGreatest, Xs, Ys, Zs, MonotoneRounding;
    var t := TransformsOf(fp, h);
    SidesSnapIff(fp, t.x, Xs(ps), b.min.x, b.max.x);
    SidesSnapIff(fp, t.y, Ys(ps), b.min.y, b.max.y);
    SidesSnapIff(fp, t.z, Zs(ps), b.min.z, b.max.z);
  }

  lemma StorableReturns(fp: Fp, h: Header, ps: seq<Point>)
    requires AllStorable(fp, h, ps)
    ensures ReturnsUpTo(ps, 15)
  {
    hide Storable, Octet;
    forall i | 0 <= i < |ps| ensures Octet(ps[i].returnNumber) <= 15 {
      assert Storable(fp, h, ps[i]);
      StorableIff(fp, h, ps[i]);
      OctetOfSmall(ps[i].returnNumber);
    }
  }

  lemma OctetOfSmall(b: bv8)
    ensures b <= 15 ==> Octet(b) <= 15
  {
  }

  /** A run whose points could all be stored can be closed exactly when its metadata fit, its counts fit the version
      and a box fits around it. */
  lemma FinalHeaderEncodesIff(fp: Fp, h: Header, ps: seq<Point>, start: nat)
    requires MonotoneRounding(fp) && Writable(h) && Fits(h, ps, start) && AllStorable(fp, h, ps)
    ensures var k := FinalOf(fp, h, ps, start);
            && k.pointFormat.LenFits() && |k.guid| == 16
            && (HeaderBlock(fp, k).Ok? <==> MetadataFit(h) && RunCountsFit(h, ps) && RunBoxFits(fp, h, ps))
  {
    hide MonotoneRounding, AllStorable, HeaderBlock, Adapt, TransformsOf, RunBoxFits, RunCountsFit, CountsFit, IsExtent;
    hide AddedAll, SumTo, Sound;
    var k := FinalOf(fp, h, ps, start);
    FinalStatistics(fp, h, ps, start);
    WritableFits(k);
    HeaderEncodesIff(fp, k);
    SameMetadata(fp, h, k);
    AdaptSucceedsIff(fp, h, k.bounds, ps);
    StorableReturns(fp, h, ps);
    RunCountsFitIff(h, ps);
    CountsIgnoreEvlrs(AddedAll(Cleared(h), ps), k.startOfFirstEvlr);
  }

  lemma SameMetadata(fp: Fp, h: Header, k: Header)
    requires SameLayout(h, k)
    ensures MetadataFit(k) <==> MetadataFit(h)
    ensures TransformsOf(fp, k) == TransformsOf(fp, h)
  {
  }

  lemma CountsIgnoreEvlrs(h: Header, start: Option<u64>)
    ensures CountsFit(h.(startOfFirstEvlr := start)) <==> CountsFit(h)
  {
  }

  lemma FirstHeaderEncodesIff(fp: Fp, h: Header)
    requires Writable(h)
    ensures Cleared(h).pointFormat.LenFits() && |Cleared(h).guid| == 16
    ensures Preamble(fp, Cleared(h)).Ok? <==> MetadataFit(h) && forall v | v in h.vlrs :: NamesFit(v)
  {
    hide HeaderBlock, EncodeVlrs, MetadataFit, NamesFit;
    HeaderEncodesIff(fp, Cleared(h));
    SameMetadata(fp, h, Cleared(h));
    EmptyBoxStaysEmpty(fp, TransformsOf(fp, h));
    RecordsEncodeIff(h.vlrs, false);
  }

  /** A whole run succeeds exactly when its metadata and the names of its records fit, every point has the attributes
      of the format and fits 32 bits and the flag layout, the counts fit the version and a box fits around the run. */
  lemma RunSucceedsIff(fp: Fp, h: Header, ps: seq<Point>, start: nat)
    requires MonotoneRounding(fp) && Writable(h) && Fits(h, ps, start)
    ensures RunSucceeds(fp, h, ps, start)
            <==> && MetadataFit(h) && (forall v | v in h.vlrs + h.evlrs :: NamesFit(v))
                 && (forall i :: 0 <= i < |ps| ==>
                       && Matches(ps[i], h.pointFormat)
                       && CoordinatesFit(fp, TransformsOf(fp, h), ps[i])
                       && FlagsFit(ps[i], h.pointFormat.isExtended))
                 && RunCountsFit(h, ps) && RunBoxFits(fp, h, ps)
  {
    hide MonotoneRounding, Writable, Preamble, EncodeVlrs, HeaderBlock, FinalOf, MetadataFit, NamesFit, Storable;
    hide CoordinatesFit, FlagsFit, Matches, RunCountsFit, RunBoxFits, TransformsOf, Cleared;
    FirstHeaderEncodesIff(fp, h);
    RecordsEncodeIff(h.evlrs, true);
    assert forall v :: v in h.vlrs + h.evlrs <==> v in h.vlrs || v in h.evlrs;
    forall i | 0 <= i < |ps|
      ensures Storable(fp, h, ps[i])
              <==> && Matches(ps[i], h.pointFormat)
                   && CoordinatesFit(fp, TransformsOf(fp, h), ps[i])
                   && FlagsFit(ps[i], h.pointFormat.isExtended)
    {
      StorableIff(fp, h, ps[i]);
    }
    if AllStorable(fp, h, ps) {
      FinalHeaderEncodesIff(fp, h, ps, start);
    }
  }
}
