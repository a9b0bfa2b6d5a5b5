/** The writer: an open or closed state machine that lays a file out over a stream. */
module Writers {
  import opened Wrappers
  import opened Bytes
  import opened Versions
  import opened Formats
  import opened Transforms
  import opened VariableRecords
  import opened RawPoints
  import opened PointCodec
  import opened Points
  import opened Headers
  import opened Builders
  import opened Statistics
  import opened HeaderFiles
  import opened Streams
  import opened HeaderObjects

  // The point data of a run

  predicate Storable(fp: Fp, h: Header, p: Point) {
    Matches(p, h.pointFormat) && RecordOf(fp, p, h.pointFormat, TransformsOf(fp, h)).Ok?
  }

  predicate AllStorable(fp: Fp, h: Header, ps: seq<Point>) {
    forall i :: 0 <= i < |ps| ==> Storable(fp, h, ps[i])
  }

  function StoredRecord(fp: Fp, h: Header, p: Point): (record: seq<byte>)
    requires Storable(fp, h, p)
    ensures |record| == h.pointFormat.Len()
  {
    RecordOf(fp, p, h.pointFormat, TransformsOf(fp, h)).value
  }

  /** The records of a run, one after the other. */
  function Body(fp: Fp, h: Header, ps: seq<Point>): seq<byte>
    requires AllStorable(fp, h, ps)
  {
    if ps == [] then []
    else
      var n := |ps| - 1;
      Body(fp, h, ps[..n]) + StoredRecord(fp, h, ps[n])
  }

  lemma {:induction false} BodyLength(fp: Fp, h: Header, ps: seq<Point>)
    requires AllStorable(fp, h, ps)
    ensures |Body(fp, h, ps)| == |ps| * h.pointFormat.Len()
  {
    hide StoredRecord, Storable, Format.Len;
    if ps != [] {
      BodyLength(fp, h, ps[..|ps| - 1]);
      assert |ps| * h.pointFormat.Len() == (|ps| - 1) * h.pointFormat.Len() + h.pointFormat.Len();
    }
  }

  lemma {:induction false} BodyDependsOnLayout(fp: Fp, h: Header, k: Header, ps: seq<Point>)
    requires AllStorable(fp, h, ps) && k.pointFormat == h.pointFormat && k.transforms == h.transforms
    ensures AllStorable(fp, k, ps) && Body(fp, k, ps) == Body(fp, h, ps)
  {
    forall i | 0 <= i < |ps| ensures Storable(fp, k, ps[i]) {
      assert Storable(fp, h, ps[i]);
    }
    if ps != [] {
      BodyDependsOnLayout(fp, h, k, ps[..|ps| - 1]);
    }
  }

  /** Everything up to the end of the last record. */
  function FileSoFar(fp: Fp, h: Header, ps: seq<Point>): seq<byte>
    requires h.pointFormat.LenFits() && |h.guid| == 16 && Preamble(fp, h).Ok? && AllStorable(fp, h, ps)
  {
    Preamble(fp, h).value + Body(fp, h, ps)
  }

  /** A complete file. */
  function File(fp: Fp, h: Header, ps: seq<Point>): seq<byte>
    requires h.pointFormat.LenFits() && |h.guid| == 16 && Preamble(fp, h).Ok? && AllStorable(fp, h, ps)
    requires EncodeVlrs(h.evlrs, true).Ok?
  {
    FileSoFar(fp, h, ps) + h.pointPadding + EncodeVlrs(h.evlrs, true).value
  }

  // Writing a list of records

  lemma {:induction false} EncodeVlrsAppends(vs: seq<Vlr>, v: Vlr, extended: bool)
    ensures EncodeVlrs(vs + [v], extended).Ok? <==> EncodeVlrs(vs, extended).Ok? && EncodeVlr(v, extended).Ok?
    ensures EncodeVlrs(vs + [v], extended).Ok? ==>
              EncodeVlrs(vs + [v], extended).value == EncodeVlrs(vs, extended).value + EncodeVlr(v, extended).value
    ensures EncodeVlrs(vs + [v], extended).Err? ==>
              EncodeVlrs(vs + [v], extended).error
              == if EncodeVlrs(vs, extended).Err? then EncodeVlrs(vs, extended).error else EncodeVlr(v, extended).error
  {
    hide EncodeVlr;
    if vs == [] {
      assert vs + [v] == [v] && [v][1..] == [];
    } else {
      EncodeVlrsAppends(vs[1..], v, extended);
      assert (vs + [v])[1..] == vs[1..] + [v];
    }
  }

  lemma {:induction false} EncodeVlrsPrefix(vs: seq<Vlr>, n: nat, extended: bool)
    requires n <= |vs| && EncodeVlrs(vs[..n], extended).Err?
    ensures EncodeVlrs(vs, extended) == EncodeVlrs(vs[..n], extended)
    decreases |vs|
  {
    if n < |vs| {
      var m := |vs| - 1;
      assert vs == vs[..m] + [vs[m]] && vs[..m][..n] == vs[..n];
      EncodeVlrsPrefix(vs[..m], n, extended);
      EncodeVlrsAppends(vs[..m], vs[m], extended);
    } else {
      assert vs[..n] == vs;
    }
  }

  lemma {:induction false} EncodedPrefixOfAll(vs: seq<Vlr>, extended: bool)
    requires EncodeVlrs(vs, extended).Ok?
    ensures EncodedPrefix(vs, extended) == EncodeVlrs(vs, extended).value
  {
    hide EncodeVlr;
    if vs != [] {
      EncodedPrefixOfAll(vs[1..], extended);
    }
  }

  lemma {:induction false} EncodedPrefixStops(vs: seq<Vlr>, i: nat, extended: bool)
    requires i < |vs| && EncodeVlrs(vs[..i], extended).Ok? && EncodeVlr(vs[i], extended).Err?
    ensures EncodedPrefix(vs, extended) == EncodeVlrs(vs[..i], extended).value
    decreases i
  {
    hide EncodeVlr;
    if i > 0 {
      assert vs[..i][0] == vs[0] && vs[..i][1..] == vs[1..][..i - 1];
      EncodedPrefixStops(vs[1..], i - 1, extended);
    }
  }

  /** The loop that writes records until one cannot be written. */
  method WriteVlrs(stream: Stream, vs: seq<Vlr>, extended: bool) returns (r: Result<()>)
    requires stream.pos <= |stream.bytes|
    modifies stream
    ensures r.Ok? <==> EncodeVlrs(vs, extended).Ok?
    ensures r.Err? ==> r.error == EncodeVlrs(vs, extended).error
    ensures r.Ok? ==> EncodedPrefix(vs, extended) == EncodeVlrs(vs, extended).value
    ensures stream.bytes == Overwrite(old(stream.bytes), old(stream.pos), EncodedPrefix(vs, extended))
    ensures stream.pos == old(stream.pos) + |EncodedPrefix(vs, extended)|
  {
    hide EncodeVlr, Overwrite;
    ghost var written := [];
    OverwriteReach(stream.bytes, stream.pos, []);
    for i := 0 to |vs|
      invariant EncodeVlrs(vs[..i], extended) == Ok(written)
      invariant stream.bytes == Overwrite(old(stream.bytes), old(stream.pos), written)
      invariant stream.pos == old(stream.pos) + |written|
    {
      assert vs[..i + 1] == vs[..i] + [vs[i]];
      EncodeVlrsAppends(vs[..i], vs[i], extended);
      var b := EncodeVlr(vs[i], extended);
      if b.Err? {
        EncodeVlrsPrefix(vs, i + 1, extended);
        EncodedPrefixStops(vs, i, extended);
        return Err(b.error);
      }
      OverwriteTwice(old(stream.bytes), old(stream.pos), written, b.value);
      stream.WriteAll(b.value);
      written := written + b.value;
    }
    assert vs[..|vs|] == vs;
    EncodedPrefixOfAll(vs, extended);
    return Ok(());
  }

  /** Writes the header block, the records and their padding. */
  method WriteHeader(fp: Fp, stream: Stream, h: Header) returns (r: Result<()>)
    requires h.pointFormat.LenFits() && |h.guid| == 16
    modifies stream
    ensures r.Ok? <==> Preamble(fp, h).Ok?
    ensures r.Err? ==> r.error == Preamble(fp, h).error
    ensures r.Ok? ==> stream.bytes == Overwrite(old(stream.bytes), old(stream.pos), Preamble(fp, h).value)
                      && stream.pos == old(stream.pos) + |Preamble(fp, h).value|
  {
    hide Overwrite, HeaderBlock, EncodeVlrs, EncodedPrefix;
    var block := HeaderBlock(fp, h);
    if block.Err? {
      return Err(block.error);
    }
    stream.WriteAll(block.value);
    OverwriteReach(old(stream.bytes), old(stream.pos), block.value);
    var vlrs := WriteVlrs(stream, h.vlrs, false);
    if vlrs.Err? {
      return Err(vlrs.error);
    }
    stream.WriteAll(h.vlrPadding);
    OverwriteTwice(old(stream.bytes), old(stream.pos), block.value, EncodeVlrs(h.vlrs, false).value);
    OverwriteTwice(old(stream.bytes), old(stream.pos), block.value + EncodeVlrs(h.vlrs, false).value, h.vlrPadding);
    return Ok(());
  }

  // Writing a point

  lemma RecordParts(fp: Fp, raw: RawPoint, f: Format, flags: seq<byte>)
    ensures Join(PointFields(fp, raw, f, flags))
         == Join(LeadingFields(raw)) + flags + Join(PointFields(fp, raw, f, flags)[5..])
    ensures |Join(LeadingFields(raw))| == 14
  {
    hide U16Bytes, U32Bytes, NirBytes, WaveformBytes, ColorBytes, AngleAndUserData, Join, I32Bytes, Sum;
    var fields := PointFields(fp, raw, f, flags);
    assert fields == LeadingFields(raw) + fields[4..];
    JoinAppend(LeadingFields(raw), fields[4..]);
    JoinOfSome(fields[4..]);
    assert fields[4..][1..] == fields[5..];
    JoinLength(LeadingFields(raw), [4, 4, 4, 2]);
    SumOfFour([4, 4, 4, 2]);
  }

  /** Coordinates and intensity go out before the flags are found to fit. */
  method WriteRawPoint(fp: Fp, stream: Stream, raw: RawPoint, f: Format) returns (r: Result<()>)
    requires |raw.extraBytes| == f.extraBytes
    modifies stream
    ensures r.Ok? <==> EncodePoint(fp, raw, f).Ok?
    ensures r.Err? ==> r.error == EncodePoint(fp, raw, f).error
    ensures r.Ok? ==> stream.bytes == Overwrite(old(stream.bytes), old(stream.pos), EncodePoint(fp, raw, f).value)
                      && stream.pos == old(stream.pos) + |EncodePoint(fp, raw, f).value|
    ensures r.Err? ==> stream.bytes == Overwrite(old(stream.bytes), old(stream.pos), Join(LeadingFields(raw)))
                       && stream.pos == old(stream.pos) + 14
  {
    hide Overwrite, PointFields, Join, Flags.Stored;
    RecordParts(fp, raw, f, []);
    stream.WriteAll(Join(LeadingFields(raw)));
    var flags := raw.flags.Stored(f.isExtended);
    if flags.Err? {
      return Err(flags.error);
    }
    stream.WriteAll(flags.value);
    var rest := Join(PointFields(fp, raw, f, flags.value)[5..]);
    stream.WriteAll(rest);
    RecordParts(fp, raw, f, flags.value);
    OverwriteTwice(old(stream.bytes), old(stream.pos), Join(LeadingFields(raw)), flags.value);
    OverwriteTwice(old(stream.bytes), old(stream.pos), Join(LeadingFields(raw)) + flags.value, rest);
    return Ok(());
  }

  /** What a point that cannot be stored leaves in the stream: its first fields, if only its flags do not fit. */
  function Leavings(fp: Fp, p: Point, t: Vector<Transform>): seq<byte> {
    match IntoRaw(fp, p, t)
    case Ok(raw) => Join(LeadingFields(raw))
    case Err(_) => []
  }

  /** Converts a point and writes its record. */
  method StorePoint(fp: Fp, stream: Stream, p: Point, f: Format, t: Vector<Transform>) returns (r: Result<()>)
    requires Matches(p, f)
    modifies stream
    ensures r.Ok? <==> RecordOf(fp, p, f, t).Ok?
    ensures r.Err? ==> r.error == RecordOf(fp, p, f, t).error
    ensures r.Ok? ==> stream.bytes == Overwrite(old(stream.bytes), old(stream.pos), RecordOf(fp, p, f, t).value)
                      && stream.pos == old(stream.pos) + f.Len()
    ensures r.Err? && IntoRaw(fp, p, t).Err? ==> unchanged(stream)
    ensures r.Err? && IntoRaw(fp, p, t).Ok? ==>
              stream.bytes == Overwrite(old(stream.bytes), old(stream.pos), Leavings(fp, p, t))
    ensures r.Err? ==> stream.pos == old(stream.pos) + |Leavings(fp, p, t)|
    ensures |Leavings(fp, p, t)| == if IntoRaw(fp, p, t).Ok? then 14 else 0
  {
    hide Overwrite, IntoRaw, Join, EncodePoint, Format.Len;
    var raw := IntoRaw(fp, p, t);
    if raw.Err? {
      return Err(raw.error);
    }
    RecordParts(fp, raw.value, f, []);
    r := WriteRawPoint(fp, stream, raw.value, f);
  }

  lemma ClearingKeepsWritable(h: Header)
    requires Writable(h)
    ensures Writable(Cleared(h))
  {
  }

  lemma AddedAppends(h: Header, ps: seq<Point>, p: Point)
    ensures AddedAll(h, ps + [p]) == Added(AddedAll(h, ps), p)
  {
    assert (ps + [p])[..|ps|] == ps;
  }

  lemma WritableFits(h: Header)
    requires Writable(h)
    ensures h.pointFormat.LenFits() && |h.guid| == 16 && h.version.AtMost(Version(1, 4))
  {
  }

  lemma AddedKeepsLayout(h: Header, p: Point, start: Option<u64>)
    ensures SameLayout(h, Added(h, p))
    ensures Added(h.(startOfFirstEvlr := start), p) == Added(h, p).(startOfFirstEvlr := start)
  {
  }

  lemma FileGrows(fp: Fp, h: Header, ps: seq<Point>, p: Point)
    requires h.pointFormat.LenFits() && |h.guid| == 16 && Preamble(fp, h).Ok?
    requires AllStorable(fp, h, ps) && Storable(fp, h, p)
    ensures AllStorable(fp, h, ps + [p])
    ensures FileSoFar(fp, h, ps + [p])
         == FileSoFar(fp, h, ps) + StoredRecord(fp, h, p)
  {
    hide Preamble, StoredRecord, Storable;
    assert (ps + [p])[..|ps|] == ps;
  }

  // Closing

  /** A complete file stands at `start`, and its header says where its EVLRs do. */
  predicate IsFile(fp: Fp, s: seq<byte>, start: nat, h: Header, ps: seq<Point>) {
    && h.pointFormat.LenFits() && |h.guid| == 16
    && Preamble(fp, h).Ok? && EncodeVlrs(h.evlrs, true).Ok? && AllStorable(fp, h, ps)
    && At(s, start, File(fp, h, ps))
    && h.startOfFirstEvlr == Some(start + |FileSoFar(fp, h, ps)| + |h.pointPadding|)
  }

  /** Header `k` is `h` after counting points and finding the EVLRs. */
  predicate SameLayout(h: Header, k: Header) {
    k == h.(numberOfPoints := k.numberOfPoints, byReturn := k.byReturn, bounds := k.bounds,
            startOfFirstEvlr := k.startOfFirstEvlr)
  }

  /** Point padding, then the EVLRs, whose start is recorded on the way. */
  method WriteTail(stream: Stream, header: HeaderObject) returns (r: Result<()>)
    requires stream.pos + |header.fixed.pointPadding| <= U64_MAX
    modifies stream, header
    ensures header.Value()
         == old(header.Value()).(startOfFirstEvlr := Some(old(stream.pos) + |header.fixed.pointPadding|))
    ensures r.Ok? <==> EncodeVlrs(header.evlrs, true).Ok?
    ensures r.Err? ==> r.error == EncodeVlrs(header.evlrs, true).error
    ensures r.Ok? ==> EncodedPrefix(header.evlrs, true) == EncodeVlrs(header.evlrs, true).value
    ensures var tail := header.fixed.pointPadding + EncodedPrefix(header.evlrs, true);
            && stream.bytes == Overwrite(old(stream.bytes), old(stream.pos), tail)
            && stream.pos == old(stream.pos) + |tail|
  {
    hide Overwrite, EncodeVlrs, EncodedPrefix;
    var padding := header.fixed.pointPadding;
    stream.WriteAll(padding);
    OverwriteReach(old(stream.bytes), old(stream.pos), padding);
    header.SetStartOfFirstEvlr(stream.pos);
    r := WriteVlrs(stream, header.evlrs, true);
    OverwriteTwice(old(stream.bytes), old(stream.pos), padding, EncodedPrefix(header.evlrs, true));
  }

  lemma TailExtends(fp: Fp, s: seq<byte>, start: nat, h: Header, ps: seq<Point>)
    requires h.pointFormat.LenFits() && |h.guid| == 16 && Preamble(fp, h).Ok? && AllStorable(fp, h, ps)
    requires EncodeVlrs(h.evlrs, true).Ok? && At(s, start, FileSoFar(fp, h, ps))
    ensures At(Overwrite(s, start + |FileSoFar(fp, h, ps)|, h.pointPadding + EncodeVlrs(h.evlrs, true).value),
               start, FileSoFar(fp, h, ps) + h.pointPadding + EncodeVlrs(h.evlrs, true).value)
  {
    hide Overwrite, Preamble, At, EncodeVlrs, FileSoFar, AllStorable;
    var written, padding, evlrs := FileSoFar(fp, h, ps), h.pointPadding, EncodeVlrs(h.evlrs, true).value;
    OverwriteExtends(s, start, written, padding + evlrs);
    assert written + (padding + evlrs) == written + padding + evlrs;
  }

  /** Rewriting the header block turns what was written under the first header into a file under the final one. */
  lemma RewritingHeaderCompletesFile(fp: Fp, s: seq<byte>, start: nat, h: Header, k: Header, ps: seq<Point>)
    requires Writable(h) && Preamble(fp, h).Ok? && AllStorable(fp, h, ps)
    requires SameLayout(h, k) && HeaderBlock(fp, k).Ok? && EncodeVlrs(h.evlrs, true).Ok?
    requires At(s, start, FileSoFar(fp, h, ps) + h.pointPadding + EncodeVlrs(h.evlrs, true).value)
    requires k.startOfFirstEvlr == Some(start + |FileSoFar(fp, h, ps)| + |h.pointPadding|)
    ensures IsFile(fp, Overwrite(s, start, HeaderBlock(fp, k).value), start, k, ps)
    ensures |HeaderBlock(fp, k).value| == h.version.HeaderSize() + |h.padding|
  {
    hide Overwrite, At, HeaderBlock, EncodeVlrs, Sound, Body, AllStorable;
    SoundVersion(h);
    HeaderBlockLength(fp, h);
    HeaderBlockLength(fp, k);
    BodyDependsOnLayout(fp, h, k, ps);
    var front, block := HeaderBlock(fp, h).value, HeaderBlock(fp, k).value;
    var rest := EncodeVlrs(h.vlrs, false).value + h.vlrPadding + Body(fp, h, ps)
                + h.pointPadding + EncodeVlrs(h.evlrs, true).value;
    assert FileSoFar(fp, h, ps) + h.pointPadding + EncodeVlrs(h.evlrs, true).value == front + rest;
    OverwriteFront(s, start, front, rest, block);
    assert File(fp, k, ps) == block + rest;
  }

  /** Goes back to the start, writes the header block there and goes back again. */
  method RewriteBlock(fp: Fp, stream: Stream, h: Header, start: nat) returns (r: Result<()>)
    requires h.pointFormat.LenFits() && |h.guid| == 16
    modifies stream
    ensures r.Ok? <==> HeaderBlock(fp, h).Ok?
    ensures r.Err? ==> r.error == HeaderBlock(fp, h).error && stream.bytes == old(stream.bytes)
    ensures r.Ok? ==> stream.bytes == Overwrite(old(stream.bytes), start, HeaderBlock(fp, h).value)
    ensures stream.pos == start
  {
    hide HeaderBlock, Overwrite;
    stream.SeekStart(start);
    var block := HeaderBlock(fp, h);
    if block.Err? {
      return Err(block.error);
    }
    stream.WriteAll(block.value);
    stream.SeekStart(start);
    return Ok(());
  }

  /** Where the stream stands after `count` whole records of `n` bytes. */
  function EndOfRecords(first: nat, count: nat, n: nat): nat {
    first + count * n
  }

  lemma NextEndOfRecords(first: nat, count: nat, n: nat)
    ensures EndOfRecords(first, count + 1, n) == EndOfRecords(first, count, n) + n
    ensures EndOfRecords(first, 0, n) == first
  {
  }

  lemma RecordsAreLong(f: Format)
    ensures f.Len() > 14
  {
  }

  class Writer {
    const fp: Fp
    const stream: Stream
    const header: HeaderObject
    const start: nat
    var closed: bool

    /** The cleared header that was written first. */
    ghost const initial: Header
    /** The points that were counted. */
    ghost var points: seq<Point>
    /** No point that was counted, and no close, has failed. */
    ghost var clean: bool
    /** A close has failed. */
    ghost var interrupted: bool

    ghost predicate Wellformed()
      reads this, header
    {
      && Writable(initial) && !initial.pointFormat.isCompressed && Preamble(fp, initial).Ok?
      && header.Value() == AddedAll(initial, points).(startOfFirstEvlr := header.startOfFirstEvlr)
      && (clean ==> AllStorable(fp, initial, points))
    }

    /** Where the stream stands if every counted point was stored. */
    ghost function Expected(): nat
      requires Writable(initial) && Preamble(fp, initial).Ok?
      reads this
    {
      EndOfRecords(start + |Preamble(fp, initial).value|, |points|, initial.pointFormat.Len())
    }

    /** What every operation keeps: while open, the stream holds the preamble and one record for
        every point; once closed, a complete file under the final header. A point that could not be stored
        leaves the stream short of where it should stand, for good. */
    ghost predicate Valid()
      reads this, stream, header
    {
      && Wellformed()
      && (clean && !closed ==>
            && At(stream.bytes, start, FileSoFar(fp, initial, points))
            && stream.pos == start + |FileSoFar(fp, initial, points)|)
      && (clean && closed ==> IsFile(fp, stream.bytes, start, header.Value(), points))
      && (interrupted ==> !clean)
      && (!closed && !interrupted ==> stream.pos <= Expected() && (clean <==> stream.pos == Expected()))
    }

    constructor (fp: Fp, stream: Stream, header: HeaderObject, start: nat)
      requires Writable(header.Value()) && !header.fixed.pointFormat.isCompressed && Preamble(fp, header.Value()).Ok?
      requires At(stream.bytes, start, Preamble(fp, header.Value()).value)
      requires stream.pos == start + |Preamble(fp, header.Value()).value|
      ensures Valid() && clean && !interrupted && !closed && points == []
      ensures this.fp == fp && this.stream == stream && this.header == header && this.start == start
      ensures initial == header.Value()
    {
      hide Preamble, Sound, Storable;
      this.fp, this.stream, this.header, this.start := fp, stream, header, start;
      closed := false;
      initial, points, clean, interrupted := header.Value(), [], true, false;
    }

    /** Starts a file at the current position of the stream. */
    static method New(fp: Fp, stream: Stream, header: HeaderObject) returns (r: Result<Writer>)
      requires Writable(header.Value()) && !header.fixed.pointFormat.isCompressed
      modifies stream, header
      ensures header.Value() == Cleared(old(header.Value()))
      ensures r.Ok? <==> Preamble(fp, Cleared(old(header.Value()))).Ok?
      ensures r.Err? ==> r.error == Preamble(fp, Cleared(old(header.Value()))).error
      ensures r.Ok? ==>
                && fresh(r.value) && r.value.Valid() && r.value.clean && !r.value.interrupted
                && !r.value.closed && r.value.points == []
                && r.value.fp == fp && r.value.stream == stream && r.value.header == header
                && r.value.start == old(stream.pos) && r.value.initial == Cleared(old(header.Value()))
                && stream.bytes == Overwrite(old(stream.bytes), old(stream.pos),
                                             Preamble(fp, Cleared(old(header.Value()))).value)
    {
      hide Overwrite, Preamble, At;
      var start := stream.pos;
      ClearingKeepsWritable(header.Value());
      header.Clear();
      var written := WriteHeader(fp, stream, header.Value());
      if written.Err? {
        return Err(written.error);
      }
      OverwriteAt(old(stream.bytes), start, Preamble(fp, header.Value()).value);
      var writer := new Writer(fp, stream, header, start);
      return Ok(writer);
    }

    /** Counts a point and appends its record. A point that cannot be stored is counted all the same,
        and leaves its first 14 bytes behind if only its flags do not fit. */
    method AppendPoint(p: Point) returns (r: Result<()>)
      requires Valid() && !closed && Matches(p, initial.pointFormat)
      modifies this, stream, header
      ensures Valid() && !closed
      ensures header.Value() == Added(old(header.Value()), p) && points == old(points) + [p]
      ensures r.Ok? <==> RecordOf(fp, p, initial.pointFormat, TransformsOf(fp, initial)).Ok?
      ensures r.Err? ==> r.error == RecordOf(fp, p, initial.pointFormat, TransformsOf(fp, initial)).error
      ensures clean == (old(clean) && r.Ok?) && interrupted == old(interrupted)
      ensures r.Ok? ==> var record := RecordOf(fp, p, initial.pointFormat, TransformsOf(fp, initial)).value;
                        stream.bytes == Overwrite(old(stream.bytes), old(stream.pos), record)
                        && stream.pos == old(stream.pos) + |record|
      ensures r.Err? && IntoRaw(fp, p, TransformsOf(fp, initial)).Err? ==> unchanged(stream)
      ensures r.Err? && IntoRaw(fp, p, TransformsOf(fp, initial)).Ok? ==>
                var left := Leavings(fp, p, TransformsOf(fp, initial));
                && stream.bytes == Overwrite(old(stream.bytes), old(stream.pos), left)
                && stream.pos == old(stream.pos) + 14 && |left| == 14
    {
      hide Overwrite, Preamble, At, Writable, IntoRaw, Leavings, FileSoFar, RecordOf, AddedAll, Added, EndOfRecords;
      hide Format.Len, IsFile, Matches, AllStorable;
      WritableFits(initial);
      RecordsAreLong(initial.pointFormat);
      NextEndOfRecords(start + |Preamble(fp, initial).value|, |points|, initial.pointFormat.Len());
      OnlyStatisticsChange(initial, points);
      AddedAppends(initial, points, p);
      AddedKeepsLayout(AddedAll(initial, points), p, header.startOfFirstEvlr);
      ghost var before := stream.bytes;
      header.AddPoint(p);
      points := points + [p];
      r := StorePoint(fp, stream, p, header.fixed.pointFormat, TransformsOf(fp, header.Value()));
      if r.Err? {
        clean := false;
      } else if clean {
        FileGrows(fp, initial, old(points), p);
        OverwriteExtends(before, start, FileSoFar(fp, initial, old(points)),
                         RecordOf(fp, p, initial.pointFormat, TransformsOf(fp, initial)).value);
      }
    }

    /** Writes a point, unless the writer is closed or the point does not have the attributes of the format. */
    method WritePoint(p: Point) returns (r: Result<()>)
      requires Valid()
      modifies this, stream, header
      ensures Valid() && closed == old(closed)
      ensures old(closed) ==> r == Err(ClosedWriter)
      ensures !old(closed) && !Matches(p, initial.pointFormat) ==> r == Err(PointAttributesDoNotMatch)
      ensures old(closed) || !Matches(p, initial.pointFormat) ==>
                unchanged(stream) && unchanged(header) && points == old(points) && clean == old(clean)
      ensures interrupted == old(interrupted)
      ensures var f := initial.pointFormat;
              var fits := && p.gpsTime.Some? == f.hasGpsTime && p.color.Some? == f.hasColor
                          && p.waveform.Some? == f.hasWaveform && p.nir.Some? == f.hasNir
                          && |p.extraBytes| == f.extraBytes;
              !old(closed) ==>
                if fits then points == old(points) + [p]
                else r == Err(PointAttributesDoNotMatch) && unchanged(stream) && points == old(points)
      ensures !old(closed) && Matches(p, initial.pointFormat) ==>
                && header.Value() == Added(old(header.Value()), p) && points == old(points) + [p]
                && (r.Ok? <==> RecordOf(fp, p, initial.pointFormat, TransformsOf(fp, initial)).Ok?)
                && (r.Err? ==> r.error == RecordOf(fp, p, initial.pointFormat, TransformsOf(fp, initial)).error)
                && clean == (old(clean) && r.Ok?)
                && (r.Ok? ==> var record := RecordOf(fp, p, initial.pointFormat, TransformsOf(fp, initial)).value;
                      stream.bytes == Overwrite(old(stream.bytes), old(stream.pos), record))
    {
      hide Overwrite, Valid, Added, AddedAll, RecordOf, TransformsOf;
      if closed {
        return Err(ClosedWriter);
      }
      FormatIsFixed();
      if !Matches(p, header.fixed.pointFormat) {
        return Err(PointAttributesDoNotMatch);
      }
      r := AppendPoint(p);
    }

    lemma FormatIsFixed()
      requires Valid()
      ensures header.fixed.pointFormat == initial.pointFormat
    {
      OnlyStatisticsChange(initial, points);
    }

    /** The header that closing now would write. */
    ghost function FinalHeader(): (k: Header)
      requires Wellformed() && stream.pos + |initial.pointPadding| <= U64_MAX
      reads this, stream, header
      ensures SameLayout(initial, k) && k.pointFormat.LenFits() && |k.guid| == 16
    {
      OnlyStatisticsChange(initial, points);
      header.Value().(startOfFirstEvlr := Some(stream.pos + |initial.pointPadding|))
    }

    /** What closing puts behind the points: padding, and the EVLRs as far as they can be written. */
    ghost function Tail(): seq<byte> {
      initial.pointPadding + EncodedPrefix(initial.evlrs, true)
    }

    /** Appends point padding and EVLRs, then goes back and rewrites the header block with the final counts. */
    method Close() returns (r: Result<()>)
      requires Valid() && stream.pos + |initial.pointPadding| <= U64_MAX
      modifies this, stream, header
      ensures Valid() && points == old(points)
      ensures old(closed) ==>
                && r == Err(ClosedWriter) && unchanged(stream) && unchanged(header) && closed
                && clean == old(clean) && interrupted == old(interrupted)
      ensures var k := old(FinalHeader());
              !old(closed) ==>
                && (r.Ok? <==> EncodeVlrs(initial.evlrs, true).Ok? && HeaderBlock(fp, k).Ok?)
                && (r.Err? ==> r.error == if EncodeVlrs(initial.evlrs, true).Err?
                                          then EncodeVlrs(initial.evlrs, true).error
                                          else HeaderBlock(fp, k).error)
                && closed == r.Ok? && clean == (old(clean) && r.Ok?) && interrupted == (old(interrupted) || r.Err?)
                && header.Value() == k
                && stream.pos == (if EncodeVlrs(initial.evlrs, true).Ok? then start else old(stream.pos) + |Tail()|)
                && var appended := Overwrite(old(stream.bytes), old(stream.pos), Tail());
                   stream.bytes == if r.Ok? then Overwrite(appended, start, HeaderBlock(fp, k).value) else appended
    {
      hide Overwrite, Preamble, At, Writable, HeaderBlock, EncodeVlrs, FileSoFar, AllStorable, IsFile, AddedAll;
      hide File, EncodedPrefix, EndOfRecords, Format.Len;
      if closed {
        return Err(ClosedWriter);
      }
      WritableFits(initial);
      OnlyStatisticsChange(initial, points);
      ghost var before := stream.bytes;
      var tail := WriteTail(stream, header);
      if tail.Err? {
        clean, interrupted := false, true;
        return Err(tail.error);
      }
      if clean {
        TailExtends(fp, before, start, initial, points);
      }
      ghost var complete := stream.bytes;
      var block := RewriteBlock(fp, stream, header.Value(), start);
      if block.Err? {
        clean, interrupted := false, true;
        return Err(block.error);
      }
      if clean {
        RewritingHeaderCompletesFile(fp, complete, start, initial, header.Value(), points);
      }
      closed := true;
      return Ok(());
    }

    /** Closing again, as dropping a writer does whose close has failed. It fails for the same reason. If the
        header could not be rewritten, padding and EVLRs are written a second time, over the start of the file. */
    method CloseTwice() returns (first: Result<()>, second: Result<()>)
      requires Valid() && !closed
      requires stream.pos + |Tail()| + |initial.pointPadding| <= U64_MAX && start + |initial.pointPadding| <= U64_MAX
      modifies this, stream, header
      ensures Valid() && points == old(points) && closed == first.Ok?
      ensures var k, appended := old(FinalHeader()), Overwrite(old(stream.bytes), old(stream.pos), Tail());
              && (first.Ok? <==> EncodeVlrs(initial.evlrs, true).Ok? && HeaderBlock(fp, k).Ok?)
              && (first.Ok? ==> second == Err(ClosedWriter)
                                && stream.bytes == Overwrite(appended, start, HeaderBlock(fp, k).value))
              && (first.Err? ==> second == first)
              && (first.Err? && EncodeVlrs(initial.evlrs, true).Ok? ==>
                    stream.bytes == Overwrite(appended, start, Tail()) && stream.pos == start)
              && (first.Err? && EncodeVlrs(initial.evlrs, true).Err? ==>
                    stream.bytes == Overwrite(old(stream.bytes), old(stream.pos), Tail() + Tail()))
    {
      hide Overwrite, Preamble, At, Writable, HeaderBlock, EncodeVlrs, FileSoFar, AllStorable, IsFile, AddedAll;
      hide File, EncodedPrefix, EndOfRecords, Format.Len, Tail;
      ghost var k, before, at := FinalHeader(), stream.bytes, stream.pos;
      TailLength();
      first := Close();
      ghost var again := stream.pos + |initial.pointPadding|;
      second := Close();
      if first.Err? {
        ErrorIgnoresEvlrStart(fp, k, at + |initial.pointPadding|, again);
        OverwriteTwice(before, at, Tail(), Tail());
      }
    }

    lemma TailLength()
      ensures |initial.pointPadding| <= |Tail()|
    {
    }

    /** Closes if need be and hands the stream over, at the start of the file. */
    method IntoInner() returns (r: Result<Stream>)
      requires Valid() && stream.pos + |initial.pointPadding| <= U64_MAX
      modifies this, stream, header
      ensures Valid() && points == old(points)
      ensures r.Ok? ==> r.value == stream && closed && stream.pos == start && clean == old(clean)
      ensures old(closed) ==> r.Ok? && stream.bytes == old(stream.bytes) && unchanged(header)
      ensures var k := old(FinalHeader());
              !old(closed) ==>
                && (r.Ok? <==> EncodeVlrs(initial.evlrs, true).Ok? && HeaderBlock(fp, k).Ok?)
                && (r.Ok? ==> header.Value() == k)
    {
      hide Overwrite, Preamble, At, Writable, HeaderBlock, EncodeVlrs, FileSoFar, AllStorable, IsFile, AddedAll;
      hide SameLayout, EndOfRecords, Format.Len, EncodedPrefix;
      if !closed {
        var done := Close();
        if done.Err? {
          return Err(done.error);
        }
      }
      stream.SeekStart(start);
      return Ok(stream);
    }
  }
}
