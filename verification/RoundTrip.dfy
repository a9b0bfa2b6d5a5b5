/** Whole files: what a reader gets of what a writer wrote. */
module RoundTrip {
  import opened Wrappers
  import opened Bytes
  import opened Versions
  import opened Formats
  import opened Transforms
  import opened BoundingBoxes
  import opened VariableRecords
  import RawHeaders
  import opened RawPoints
  import opened Points
  import opened PointRewrite
  import opened Headers
  import opened Builders
  import opened Histograms
  import opened Statistics
  import opened HeaderFiles
  import opened Streams
  import opened HeaderObjects
  import opened Writers
  import opened Readers

  /** A run of points as it is read back. */
  function RereadAll(fp: Fp, h: Header, ps: seq<Point>): (r: seq<Point>)
    requires AllStorable(fp, h, ps)
    ensures |r| == |ps|
    ensures forall i :: 0 <= i < |ps| ==> r[i] == Reread(fp, ps[i], h.pointFormat, TransformsOf(fp, h))
  {
    seq(|ps|, i requires 0 <= i < |ps| => Reread(fp, ps[i], h.pointFormat, TransformsOf(fp, h)))
  }

  lemma AtFront(front: seq<byte>, last: seq<byte>, at: nat, b: seq<byte>)
    requires At(front, at, b) || (at == |front| && b == last)
    ensures At(front + last, at, b)
  {
    AtAppend(front + last, 0, front, last);
    if At(front, at, b) {
      assert (front + last)[at..at + |b|] == front[at..at + |b|];
    }
  }

  /** Each record stands at its index times the record length `n`. */
  lemma {:induction false} RecordInBody(fp: Fp, h: Header, ps: seq<Point>, i: nat, n: nat, at: nat)
    requires AllStorable(fp, h, ps) && i < |ps| && n == h.pointFormat.Len() && at == i * n
    ensures Storable(fp, h, ps[i]) && At(Body(fp, h, ps), at, StoredRecord(fp, h, ps[i]))
  {
    hide StoredRecord, Format.Len, Storable, At;
    var m := |ps| - 1;
    var front := ps[..m];
    BodyLength(fp, h, front);
    if i < m {
      RecordInBody(fp, h, front, i, n, at);
      assert front[i] == ps[i];
    }
    AtFront(Body(fp, h, front), StoredRecord(fp, h, ps[m]), at, StoredRecord(fp, h, ps[i]));
  }

  lemma SliceAt(s: seq<byte>, pos: nat, b: seq<byte>)
    requires At(s, pos, b)
    ensures pos + |b| <= |s| && s[pos..pos + |b|] == b
  {
  }

  /** The parts of a file, where the reader looks for them. */
  lemma FileParts(fp: Fp, s: seq<byte>, start: nat, h: Header, ps: seq<Point>)
    requires IsFile(fp, s, start, h, ps)
    ensures At(s, start, Preamble(fp, h).value)
    ensures At(s, start + |Preamble(fp, h).value|, Body(fp, h, ps))
    ensures |Body(fp, h, ps)| == |ps| * h.pointFormat.Len()
  {
    hide At, Preamble, Body, EncodeVlrs, AllStorable, Format.Len;
    BodyLength(fp, h, ps);
    var pre, body := Preamble(fp, h).value, Body(fp, h, ps);
    var padding, evlrs := h.pointPadding, EncodeVlrs(h.evlrs, true).value;
    AtAppend(s, start, pre + body + padding, evlrs);
    AtAppend(s, start, pre + body, padding);
    AtAppend(s, start, pre, body);
  }

  lemma FileTail(fp: Fp, s: seq<byte>, start: nat, h: Header, ps: seq<Point>, end: nat)
    requires IsFile(fp, s, start, h, ps) && end == start + |Preamble(fp, h).value| + |ps| * h.pointFormat.Len()
    ensures At(s, end, h.pointPadding)
    ensures At(s, end + |h.pointPadding|, EncodeVlrs(h.evlrs, true).value)
    ensures h.startOfFirstEvlr == Some(end + |h.pointPadding|)
  {
    hide At, Preamble, Body, EncodeVlrs, AllStorable, Format.Len;
    BodyLength(fp, h, ps);
    var pre, body := Preamble(fp, h).value, Body(fp, h, ps);
    var padding, evlrs := h.pointPadding, EncodeVlrs(h.evlrs, true).value;
    AtAppend(s, start, pre + body + padding, evlrs);
    AtAppend(s, start, pre + body, padding);
  }

  /** The first of several EVLRs. */
  lemma FirstEvlrAt(s: seq<byte>, pos: nat, vs: seq<Vlr>)
    requires vs != [] && EncodeVlrs(vs, true).Ok? && At(s, pos, EncodeVlrs(vs, true).value)
    ensures EncodeVlr(vs[0], true).Ok? && At(s, pos, EncodeVlr(vs[0], true).value)
  {
    hide At, EncodeVlr;
    AtAppend(s, pos, EncodeVlr(vs[0], true).value, EncodeVlrs(vs[1..], true).value);
  }

  /** What is read as point padding of a file at `start`: the `start` bytes before the padding, then the padding. */
  function ShiftedPadding(fp: Fp, s: seq<byte>, start: nat, h: Header): (padding: seq<byte>)
    requires h.pointFormat.LenFits() && |h.guid| == 16 && Preamble(fp, h).Ok?
  {
    var end := |Preamble(fp, h).value| + PointDataLen(h);
    if h.evlrs == [] then [] else TakeAt(s, end, start) + h.pointPadding
  }

  /** A file stands at `start`, and if it has EVLRs its header counts its points. */
  predicate IsCountedFile(fp: Fp, s: seq<byte>, start: nat, h: Header, ps: seq<Point>) {
    IsFile(fp, s, start, h, ps) && (h.evlrs != [] ==> h.numberOfPoints == |ps|)
  }

  lemma TakeShifted(s: seq<byte>, end: nat, start: nat, padding: seq<byte>)
    requires At(s, end + start, padding)
    ensures TakeAt(s, end, start + |padding|) == TakeAt(s, end, start) + padding
    ensures |TakeAt(s, end, start)| == start
  {
    assert s[end..end + (start + |padding|)] == s[end..end + start] + s[end + start..end + start + |padding|];
  }

  /** Reading the header of a complete file anywhere in a stream: the EVLR is found, as its position is kept from
      the start of the stream, but what is taken for point padding begins `start` bytes too early. */
  lemma FileHeaderReadsBackAnywhere(fp: Fp, s: seq<byte>, start: nat, h: Header, ps: seq<Point>)
    requires IsCountedFile(fp, s, start, h, ps) && Writable(h) && !h.pointFormat.isCompressed
    ensures Adapt(fp, h.bounds, TransformsOf(fp, h)).Ok?
    ensures ReadHeader(fp, s, start)
         == Ok((HeaderBack(fp, h).(pointPadding := ShiftedPadding(fp, s, start, h)), |Preamble(fp, h).value|))
    ensures h.evlrs != [] ==> |ShiftedPadding(fp, s, start, h)| == start + |h.pointPadding|
  {
    hide At, TakeAt, Preamble, Body, EncodeVlrs, AllStorable, EncodeVlr, ReadHeader, Adapt, Sound, File, FileSoFar;
    FileParts(fp, s, start, h, ps);
    var offset := |Preamble(fp, h).value|;
    var end := offset + PointDataLen(h);
    if h.evlrs != [] {
      FileTail(fp, s, start, h, ps, start + end);
      FirstEvlrAt(s, start + end + |h.pointPadding|, h.evlrs);
      TakeShifted(s, end, start, h.pointPadding);
    }
    assert TailAt(s, h, offset);
    HeaderReadsBack(fp, h, s, start);
  }

  /** Reading the header of a complete file at the start of a stream gives back what was written. */
  lemma FileHeaderReadsBack(fp: Fp, s: seq<byte>, h: Header, ps: seq<Point>)
    requires IsFile(fp, s, 0, h, ps) && Writable(h) && !h.pointFormat.isCompressed && h.numberOfPoints == |ps|
    ensures Adapt(fp, h.bounds, TransformsOf(fp, h)).Ok?
    ensures ReadHeader(fp, s, 0) == Ok((HeaderBack(fp, h), |Preamble(fp, h).value|))
  {
    hide At, EncodeVlrs, AllStorable, File, FileSoFar, Preamble, ReadHeader, Adapt, Writable;
    FileHeaderReadsBackAnywhere(fp, s, 0, h, ps);
    NoShift(fp, s, h);
  }

  lemma NoShift(fp: Fp, s: seq<byte>, h: Header)
    requires h.pointFormat.LenFits() && |h.guid| == 16 && Preamble(fp, h).Ok?
    requires Adapt(fp, h.bounds, TransformsOf(fp, h)).Ok?
    ensures HeaderBack(fp, h).(pointPadding := ShiftedPadding(fp, s, 0, h)) == HeaderBack(fp, h)
  {
    hide Preamble, Adapt, BoundsBack, HistogramBack, DateBack, UpToNul, TrimmedAll;
  }

  lemma BackKeepsLayout(fp: Fp, h: Header)
    requires Adapt(fp, h.bounds, TransformsOf(fp, h)).Ok?
    ensures var k := HeaderBack(fp, h);
            k.pointFormat == h.pointFormat && k.numberOfPoints == h.numberOfPoints
            && TransformsOf(fp, k) == TransformsOf(fp, h)
  {
  }

  /** The points of a complete file are its written points as stored, in order. */
  lemma FilePointsReadBack(fp: Fp, s: seq<byte>, h: Header, ps: seq<Point>, k: Header)
    requires IsFile(fp, s, 0, h, ps) && h.numberOfPoints == |ps|
    requires k.pointFormat == h.pointFormat && k.numberOfPoints == h.numberOfPoints
    requires TransformsOf(fp, k) == TransformsOf(fp, h)
    ensures AllStorable(fp, h, ps)
    ensures Complete(k, s, |Preamble(fp, h).value|)
    ensures PointsFrom(fp, k, s, |Preamble(fp, h).value|, |ps|) == RereadAll(fp, h, ps)
  {
    hide Preamble, Body, EncodeVlrs, RecordOf, TransformsOf, Format.Len, DecodePoint, NewPoint;
    hide Matches, At, File, FileSoFar;
    FileParts(fp, s, 0, h, ps);
    SliceAt(s, |Preamble(fp, h).value|, Body(fp, h, ps));
    var offset, n := |Preamble(fp, h).value|, h.pointFormat.Len();
    var points := PointsFrom(fp, k, s, offset, |ps|);
    forall i | 0 <= i < |ps| ensures points[i] == RereadAll(fp, h, ps)[i] {
      RecordInBody(fp, h, ps, i, n, i * n);
      RecordsBefore(i + 1, |ps|, n);
      NextRecord(i, n);
      AtInside(s, offset, Body(fp, h, ps), i * n, StoredRecord(fp, h, ps[i]));
      SliceAt(s, offset + i * n, StoredRecord(fp, h, ps[i]));
    }
  }

  /** The length of everything before the points. */
  function PreambleSize(fp: Fp, h: Header): (n: u32)
    requires Writable(h)
  {
    if Preamble(fp, h).Err? then 0
    else
      WritableFits(h);
      PreambleLength(fp, h);
      |Preamble(fp, h).value|
  }

  /** The start of the EVLRs that closing recorded, the one computed from the counts and the one a reader
      computes from the raw header all agree. */
  lemma OffsetsAgree(fp: Fp, s: seq<byte>, h: Header, ps: seq<Point>, raw: RawHeaders.RawHeader)
    requires Writable(h) && HeaderIntoRaw(fp, h) == Ok(raw)
    requires IsFile(fp, s, 0, h, ps) && h.numberOfPoints == |ps|
    ensures raw.layout.offsetToPointData == PreambleSize(fp, h)
    ensures var start := RawHeaders.Canonical(raw).OffsetToEndOfPoints() + |h.pointPadding|;
            && h.startOfFirstEvlr == Some(start)
            && EvlrRaw(h.(startOfFirstEvlr := None)) == EvlrRaw(h)
            && (h.evlrs != [] ==>
                  var evlr := RawHeaders.Canonical(raw).evlr;
                  evlr.Some? && evlr.value.startOfFirstEvlr == start && evlr.value.numberOfEvlrs == |h.evlrs|)
  {
    hide At, Preamble, Body, EncodeVlrs, AllStorable, Sound, HeaderIntoRaw, OffsetToPointData, Format.Len;
    FileTail(fp, s, 0, h, ps, PreambleSize(fp, h) + PointDataLen(h));
    WritableFits(h);
    if h.evlrs != [] {
      SoundEvlrs(h);
    }
    PreambleLength(fp, h);
    RawOfHeader(fp, h, raw);
    OffsetIgnoresStart(h, None);
    PointCountSurvives(h, raw);
    HeaderSizeIsPositive(h);
  }

  lemma RawOfHeader(fp: Fp, h: Header, raw: RawHeaders.RawHeader)
    requires Writable(h) && HeaderIntoRaw(fp, h) == Ok(raw)
    ensures OffsetToPointData(h) == Ok(raw.layout.offsetToPointData) && raw.layout.recordLength == h.pointFormat.Len()
    ensures NumberOfPointsRaw(h) == Ok(raw.layout.numberOfPointRecords) && EvlrRaw(h) == Ok(raw.evlr)
    ensures raw.largeFile.Some? && raw.largeFile.value.numberOfPointRecords == h.numberOfPoints
    ensures raw.Version() == h.version
  {
    hide Adapt, LasStr, GlobalEncoding, LegacyCounts, LargeCounts, Sound;
  }

  lemma SoundEvlrs(h: Header)
    requires Sound(h) && h.evlrs != []
    ensures h.version.Supports(Evlrs)
  {
  }

  /** A file is read as it was written exactly when it begins at the start of its stream. Elsewhere its header
      is found, but the reader is left where the points would be if it did, and with EVLRs the point padding
      grows by the distance. */
  lemma ReaderIsAtPointsIffFileIsAtStart(fp: Fp, s: seq<byte>, start: nat, h: Header, ps: seq<Point>)
    requires IsCountedFile(fp, s, start, h, ps) && Writable(h) && !h.pointFormat.isCompressed
    ensures ReadHeader(fp, s, start).Ok? && Adapt(fp, h.bounds, TransformsOf(fp, h)).Ok?
    ensures var (back, position) := ReadHeader(fp, s, start).value;
            && (position == start + |Preamble(fp, h).value| <==> start == 0)
            && back == HeaderBack(fp, h).(pointPadding := back.pointPadding)
            && |back.pointPadding| == (if h.evlrs == [] then 0 else |h.pointPadding| + start)
            && (back == HeaderBack(fp, h) <==> start == 0 || h.evlrs == [])
  {
    hide At, EncodeVlrs, AllStorable, File, FileSoFar, Preamble, ReadHeader, Adapt, Writable;
    FileHeaderReadsBackAnywhere(fp, s, start, h, ps);
    WritableFits(h);
    if start == 0 {
      NoShift(fp, s, h);
    }
  }

  // Whole runs

  /** Every position in the file of a run is a 64-bit number. */
  predicate Fits(h: Header, ps: seq<Point>, start: nat) {
    start + U32_MAX + |ps| * h.pointFormat.Len() + |h.pointPadding| <= U64_MAX && |ps| <= U64_MAX
  }

  lemma ClearedIsWritable(h: Header)
    requires Writable(h)
    ensures Writable(Cleared(h)) && Cleared(h).pointFormat.LenFits() && |Cleared(h).guid| == 16
    ensures SameLayout(h, Cleared(h))
  {
  }

  lemma FinalLayout(h: Header, ps: seq<Point>)
    requires Writable(h)
    ensures AddedAll(Cleared(h), ps).pointFormat.LenFits() && |AddedAll(Cleared(h), ps).guid| == 16
  {
    OnlyStatisticsChange(Cleared(h), ps);
  }

  /** Where the EVLRs of a run will start. */
  function EvlrsOf(h: Header, ps: seq<Point>, start: nat, size: u32): u64
    requires Fits(h, ps, start)
  {
    start + size + |ps| * h.pointFormat.Len() + |h.pointPadding|
  }

  /** The header of a finished run: the given one with the statistics of the run and the start of its EVLRs. */
  function FinalOf(fp: Fp, h: Header, ps: seq<Point>, start: nat): Header
    requires Writable(h) && Fits(h, ps, start)
  {
    ClearedIsWritable(h);
    AddedAll(Cleared(h), ps).(startOfFirstEvlr := Some(EvlrsOf(h, ps, start, PreambleSize(fp, Cleared(h)))))
  }

  /** The first header can be written, every point can be stored and the final header can be written. */
  predicate RunSucceeds(fp: Fp, h: Header, ps: seq<Point>, start: nat)
    requires Writable(h) && Fits(h, ps, start)
  {
    ClearedIsWritable(h);
    FinalLayout(h, ps);
    && Preamble(fp, Cleared(h)).Ok?
    && AllStorable(fp, h, ps)
    && EncodeVlrs(h.evlrs, true).Ok?
    && HeaderBlock(fp, FinalOf(fp, h, ps, start)).Ok?
  }

  /** Final headers count the run exactly and stay writable. */
  lemma FinalStatistics(fp: Fp, h: Header, ps: seq<Point>, start: nat)
    requires Writable(h) && Fits(h, ps, start)
    ensures var k := FinalOf(fp, h, ps, start);
            && Writable(k) && SameLayout(h, k)
            && k.numberOfPoints == |ps| && IsExtent(k.bounds, ps)
            && SumTo(k.byReturn, 255) + Returns(ps, 0) == |ps|
  {
    hide Preamble, IsExtent, SumTo, Format.Len, AddedAll, PreambleSize;
    var k := FinalOf(fp, h, ps, start);
    OnlyStatisticsChange(Cleared(h), ps);
    PointCount(h, ps);
    BoundsAreExtent(h, ps);
    CountsAddUp(h, ps);
    assert FromHeader(k)
        == FromHeader(h).(byReturn := k.byReturn, numberOfPoints := k.numberOfPoints, bounds := k.bounds);
  }

  /** A version 1.2 header of format 0 without records, for any scales and offsets. */
  function PlainHeader(t: Vector<TransformWords>): Header {
    Header(EMPTY_BOUNDS, None, [], 0, [], false, Zeros(16), false, false, 0, map[], [],
           Format(false, false, false, false, false, 0, false), [], None, [], t, Version(1, 2), [], [])
  }

  /** The point whose stored coordinates are zero. */
  function PlainPoint(t: Vector<Transform>): Point {
    Point(t.x.offset, t.y.offset, t.z.offset, 0, 0, 0, false, false, 0, false, false, false, false, 0, 0.0, 0, 0,
          None, None, None, None, [])
  }

  lemma PlainPointIsStorable(fp: Fp, t: Vector<TransformWords>)
    requires ExactRounding(fp)
    ensures var h := PlainHeader(t); Storable(fp, h, PlainPoint(TransformsOf(fp, h)))
  {
    hide EncodePoint, AngleFromDegrees;
    var h := PlainHeader(t);
    var p := PlainPoint(TransformsOf(fp, h));
    OffsetIsZero(fp, TransformOf(fp, t.x));
    OffsetIsZero(fp, TransformOf(fp, t.y));
    OffsetIsZero(fp, TransformOf(fp, t.z));
    var raw := IntoRaw(fp, p, TransformsOf(fp, h)).value;
    FlagsOfZero(raw.flags);
    assert EncodePoint(fp, raw, h.pointFormat).Ok? by {
      EncodesIfFlagsFit(fp, raw, h.pointFormat);
    }
  }

  lemma EncodesIfFlagsFit(fp: Fp, raw: RawPoint, f: Format)
    requires |raw.extraBytes| == f.extraBytes && raw.flags.Stored(f.isExtended).Ok?
    ensures EncodePoint(fp, raw, f).Ok?
  {
  }

  lemma FlagsOfZero(flags: Flags)
    requires flags == ThreeByte(0, 0, 0)
    ensures flags.Stored(false).Ok?
  {
  }

  lemma OffsetIsZero(fp: Fp, t: Transform)
    requires ExactRounding(fp)
    ensures forall mode :: InverseWithRoundingMode(fp, t, t.offset, mode) == Ok(0)
  {
    assert t.scale != 0.0 ==> 0.0 / t.scale == 0.0;
  }

  /** Writing is not vacuous: in exact arithmetic a plain header and a run of one point can be written anywhere
      that positions reach. */
  lemma SomeRunSucceeds(fp: Fp, t: Vector<TransformWords>, start: nat)
    requires ExactRounding(fp) && start <= U32_MAX
    ensures var h := PlainHeader(t);
            var ps := [PlainPoint(TransformsOf(fp, h))];
            Writable(h) && Fits(h, ps, start) && RunSucceeds(fp, h, ps, start)
  {
    hide Storable, InverseWithRoundingMode, RawHeaders.EncodeRawHeader;
    var h := PlainHeader(t);
    var p := PlainPoint(TransformsOf(fp, h));
    var ps := [p];
    PlainPointIsStorable(fp, t);
    assert AllStorable(fp, h, ps);
    OffsetIsZero(fp, TransformOf(fp, t.x));
    OffsetIsZero(fp, TransformOf(fp, t.y));
    OffsetIsZero(fp, TransformOf(fp, t.z));
    var k := FinalOf(fp, h, ps, start);
    assert ps[..0] == [];
    assert AddedAll(Cleared(h), []) == Cleared(h);
    assert AddedAll(Cleared(h), ps) == Added(Cleared(h), p);
    assert HeaderIntoRaw(fp, Cleared(h)).Ok?;
    assert HeaderIntoRaw(fp, k).Ok?;
  }

  lemma PositionOf(w: Writer)
    requires w.Valid() && w.clean && !w.closed
    ensures w.stream.pos == w.start + |Preamble(w.fp, w.initial).value| + |w.points| * w.initial.pointFormat.Len()
    ensures |Preamble(w.fp, w.initial).value| <= U32_MAX
  {
    hide Preamble, Body, At, Sound, AddedAll, Format.Len, AllStorable;
    WritableFits(w.initial);
    PreambleLength(w.fp, w.initial);
    BodyLength(w.fp, w.initial, w.points);
  }

  /** Storability does not depend on the statistics. */
  lemma StorableByLayout(fp: Fp, h: Header, k: Header, p: Point)
    requires SameLayout(h, k)
    ensures Storable(fp, h, p) <==> Storable(fp, k, p)
  {
  }

  /** Writes a whole file. It succeeds exactly when every write and the close can, and then a complete
      file stands in the stream. */
  method WriteFile(fp: Fp, stream: Stream, header: HeaderObject, ps: seq<Point>) returns (r: Result<()>)
    requires Writable(header.Value()) && !header.fixed.pointFormat.isCompressed && Fits(header.Value(), ps, stream.pos)
    modifies stream, header
    ensures r.Ok? <==> RunSucceeds(fp, old(header.Value()), ps, old(stream.pos))
    ensures r.Ok? ==>
              var k := FinalOf(fp, old(header.Value()), ps, old(stream.pos));
              header.Value() == k && IsFile(fp, stream.bytes, old(stream.pos), k, ps) && stream.pos == old(stream.pos)
  {
    hide Writable, Preamble, IsFile, FileSoFar, Added, AddedAll, Cleared, RecordOf, Matches;
    hide Overwrite, At, EncodeVlrs, HeaderBlock, TransformsOf, EndOfRecords, EncodedPrefix, Format.Len;
    ghost var h := header.Value();
    ClearedIsWritable(h);
    var created := Writer.New(fp, stream, header);
    if created.Err? {
      return Err(created.error);
    }
    var writer := created.value;
    for i := 0 to |ps|
      invariant writer.Valid() && writer.clean && !writer.closed && writer.points == ps[..i]
      invariant writer.fp == fp && writer.stream == stream && writer.header == header
      invariant writer.start == old(stream.pos) && writer.initial == Cleared(h)
      invariant AllStorable(fp, h, ps[..i])
    {
      var written := writer.WritePoint(ps[i]);
      StorableByLayout(fp, h, Cleared(h), ps[i]);
      if written.Err? {
        return Err(written.error);
      }
    }
    assert ps[..|ps|] == ps;
    PositionOf(writer);
    var closed := writer.Close();
    return closed;
  }

  /** Writes a file at the start of a stream and reads it back. This succeeds exactly when writing does. Then the
      header comes back as `HeaderBack` says, the points come back as stored, in order, and there are no more. */
  method WriteThenRead(fp: Fp, stream: Stream, header: HeaderObject, ps: seq<Point>)
    returns (r: Result<(Header, seq<Point>, Option<Point>)>)
    requires Writable(header.Value()) && !header.fixed.pointFormat.isCompressed
    requires stream.pos == 0 && Fits(header.Value(), ps, 0)
    modifies stream, header
    ensures r.Ok? <==> RunSucceeds(fp, old(header.Value()), ps, 0)
    ensures r.Ok? ==>
              var k := FinalOf(fp, old(header.Value()), ps, 0);
              && Adapt(fp, k.bounds, TransformsOf(fp, k)).Ok? && r.value.0 == HeaderBack(fp, k)
              && AllStorable(fp, k, ps) && r.value.1 == RereadAll(fp, k, ps)
              && r.value.2 == None
  {
    hide Writable, Preamble, IsFile, AllStorable, FinalOf, RunSucceeds, Adapt, ReadHeader;
    hide TransformsOf, HeaderBack, PointsFrom, SumTo, SameLayout, IsExtent;
    ghost var h := header.Value();
    var written := WriteFile(fp, stream, header, ps);
    if written.Err? {
      return Err(written.error);
    }
    ghost var s, k := stream.bytes, FinalOf(fp, h, ps, 0);
    FinalStatistics(fp, h, ps, 0);
    FinalFormat(h, k);
    FileHeaderReadsBack(fp, s, k, ps);
    BackKeepsLayout(fp, k);
    FilePointsReadBack(fp, s, k, ps, HeaderBack(fp, k));
    r := ReadAll(fp, stream);
  }

  /** Reads a header, then all points, then once more. */
  method ReadAll(fp: Fp, stream: Stream) returns (r: Result<(Header, seq<Point>, Option<Point>)>)
    modifies stream`pos
    ensures var spec := ReadHeader(fp, stream.bytes, old(stream.pos));
            spec.Ok? && Complete(spec.value.0, stream.bytes, spec.value.1) ==>
              var h := spec.value.0;
              r == Ok((h, PointsFrom(fp, h, stream.bytes, spec.value.1, h.numberOfPoints), None))
  {
    hide ReadHeader, PointsFrom, NewPoint, DecodePoint, TransformsOf, Format.Len;
    var read := ReadHeaderFrom(fp, stream);
    if read.Err? {
      return Err(read.error);
    }
    var reader := new PointReader(fp, stream, read.value);
    assert Complete(read.value, stream.bytes, stream.pos) ==> reader.Valid();
    ghost var all := if reader.Valid() then reader.Points() else [];
    var points, count := reader.ReadPoints(read.value.numberOfPoints, []);
    assert all[0..|all|] == all;
    if count.Err? {
      return Err(count.error);
    }
    var last := reader.ReadPoint();
    if last.Err? {
      return Err(last.error);
    }
    if Complete(read.value, stream.bytes, reader.start) {
      assert points == all;
    }
    return Ok((read.value, points, last.value));
  }

  lemma FinalFormat(h: Header, k: Header)
    requires SameLayout(h, k)
    ensures k.pointFormat == h.pointFormat
  {
  }

  // Headers that come back unchanged

  lemma DateSurvivesIff(d: Option<Date>)
    ensures DateBack(d) == d <==> (d.Some? ==> ValidDate(d.value) && 0 <= d.value.year <= U16_MAX)
  {
  }

  lemma TrimmedAllSameIff(vs: seq<Vlr>)
    ensures TrimmedAll(vs) == vs <==> forall v | v in vs :: NulFree(v.userId) && NulFree(v.description)
  {
    forall i | 0 <= i < |vs|
      ensures TrimmedAll(vs)[i] == vs[i] <==> NulFree(vs[i].userId) && NulFree(vs[i].description)
    {
      TrimmedIsSameIffNulFree(vs[i]);
    }
    if TrimmedAll(vs) == vs {
      forall v | v in vs ensures NulFree(v.userId) && NulFree(v.description) {
        var i :| 0 <= i < |vs| && vs[i] == v;
        assert TrimmedAll(vs)[i] == vs[i];
      }
    }
  }

  /** Up to its box, which is snapped, a header comes back as it was exactly when its date fits the file, no
      string holds a NUL, there is at most one EVLR, the histogram survives and the header is normalised. */
  lemma HeaderSurvivesIff(fp: Fp, h: Header)
    requires Sound(h) && Adapt(fp, h.bounds, TransformsOf(fp, h)).Ok?
    requires LegacyFits(h.byReturn, h.version) && forall k | k in h.byReturn :: k <= 15
    ensures HeaderBack(fp, h).(bounds := h.bounds) == h.(startOfFirstEvlr := None)
            <==> && (h.date.Some? ==> ValidDate(h.date.value) && 0 <= h.date.value.year <= U16_MAX)
                 && NulFree(h.generatingSoftware) && NulFree(h.systemIdentifier)
                 && (forall v | v in h.vlrs + h.evlrs :: NulFree(v.userId) && NulFree(v.description))
                 && |h.evlrs| <= 1
                 && Positive(h.byReturn)
                 && (h.version.Supports(LargeFiles) ==> AllLegacy(h.byReturn) || NoneLegacy(h.byReturn))
                 && Normalised(h)
  {
    hide Sound, Adapt, DateBack, ValidDate, UpToNul, NulFree, HistogramBack, Positive, AllLegacy, NoneLegacy;
    hide BoundsBack, TransformsOf, Trimmed, TrimmedAll;
    DateSurvivesIff(h.date);
    UpToNulKeepsNulFree(h.generatingSoftware);
    UpToNulKeepsNulFree(h.systemIdentifier);
    TrimmedAllSameIff(h.vlrs);
    HistogramSurvivesIff(h.byReturn, h.version);
    EvlrsSurviveIff(h);
    assert forall v :: v in h.vlrs + h.evlrs <==> v in h.vlrs || v in h.evlrs;
  }

  lemma EvlrsSurviveIff(h: Header)
    ensures (if h.evlrs == [] then [] else [Trimmed(h.evlrs[0])]) == h.evlrs
            <==> |h.evlrs| <= 1 && forall v | v in h.evlrs :: NulFree(v.userId) && NulFree(v.description)
  {
    if |h.evlrs| == 1 {
      TrimmedIsSameIffNulFree(h.evlrs[0]);
      assert h.evlrs == [h.evlrs[0]];
    }
  }
}
