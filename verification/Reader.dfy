/** The reader: metadata from a stream, then points through an index and a stream position. */
module Readers {
  import opened Wrappers
  import opened Bytes
  import opened Versions
  import opened Formats
  import opened Transforms
  import opened VariableRecords
  import RawHeaders
  import opened RawPoints
  import opened Points
  import opened Headers
  import opened Builders
  import opened HeaderFiles
  import opened Streams

  // Metadata

  /** The part of the header that all versions have. */
  method ReadFixedFrom(stream: Stream) returns (r: Result<(RawHeaders.Identity, RawHeaders.Layout, RawHeaders.Extents)>)
    modifies stream`pos
    ensures r == RawHeaders.ReadFixed(stream.bytes, old(stream.pos))
    ensures r.Ok? ==> stream.pos == old(stream.pos) + 227
  {
    hide RawHeaders.GetIdentity, RawHeaders.GetLayout, RawHeaders.GetExtents, ReadExact;
    ReadInTwoSteps(stream.bytes, stream.pos, 4, 90);
    var signature := stream.Read(4);
    if signature.Err? { return Err(signature.error); }
    if signature.value != RawHeaders.LASF { return Err(InvalidFileSignature); }
    var rest := stream.Read(90);
    if rest.Err? { return Err(rest.error); }
    var l := stream.Read(37);
    if l.Err? { return Err(l.error); }
    var e := stream.Read(96);
    if e.Err? { return Err(e.error); }
    return Ok((RawHeaders.GetIdentity(signature.value + rest.value),
               RawHeaders.GetLayout(l.value), RawHeaders.GetExtents(e.value)));
  }

  /** Where a version lacks a field nothing is read. */
  method ReadVersionFieldsFrom(stream: Stream, v: Version, headerSize: u16)
    returns (r: Result<RawHeaders.VersionFields>)
    modifies stream`pos
    ensures var spec := RawHeaders.ReadVersionFields(stream.bytes, old(stream.pos), v, headerSize);
            if spec.Ok? then r == Ok(spec.value.0) && stream.pos == spec.value.1 else r == Err(spec.error)
  {
    hide RawHeaders.GetEvlr, RawHeaders.GetLargeFile, GetU64, ReadExact, Version.Supports, Version.HeaderSize;
    var start := stream.pos;
    var w := stream.Read(if v.Supports(Waveforms) then 8 else 0);
    if w.Err? { return Err(w.error); }
    assert stream.pos == start + |w.value|;
    var ev := stream.Read(if v.Supports(Evlrs) then 12 else 0);
    if ev.Err? { return Err(ev.error); }
    assert stream.pos == start + |w.value| + |ev.value|;
    var lf := stream.Read(if v.Supports(LargeFiles) then 128 else 0);
    if lf.Err? { return Err(lf.error); }
    assert stream.pos == start + |w.value| + |ev.value| + |lf.value|;
    var padding := stream.Read(if headerSize > v.HeaderSize() then headerSize - v.HeaderSize() else 0);
    if padding.Err? { return Err(padding.error); }
    return Ok(RawHeaders.VersionFields(
      if v.Supports(Waveforms) && GetU64(w.value) != 0 then Some(GetU64(w.value)) else None,
      if v.Supports(Evlrs) then RawHeaders.GetEvlr(ev.value) else None,
      if v.Supports(LargeFiles) then Some(RawHeaders.GetLargeFile(lf.value)) else None,
      padding.value));
  }

  method ReadRawHeaderFrom(stream: Stream) returns (r: Result<RawHeaders.RawHeader>)
    modifies stream`pos
    ensures var spec := RawHeaders.ReadRawHeader(stream.bytes, old(stream.pos));
            if spec.Ok? then r == Ok(spec.value.0) && stream.pos == spec.value.1 else r == Err(spec.error)
  {
    hide RawHeaders.ReadFixed, RawHeaders.ReadVersionFields;
    var fixed := ReadFixedFrom(stream);
    if fixed.Err? { return Err(fixed.error); }
    var (identity, layout, extents) := fixed.value;
    var rest := ReadVersionFieldsFrom(stream, identity.version, layout.headerSize);
    if rest.Err? { return Err(rest.error); }
    var f := rest.value;
    return Ok(RawHeaders.RawHeader(
      identity, layout, extents, f.startOfWaveform, f.evlr, f.largeFile, f.padding));
  }

  method ReadRawVlrFrom(stream: Stream, extended: bool) returns (r: Result<RawVlr>)
    modifies stream`pos
    ensures var spec := ReadRawVlr(stream.bytes, old(stream.pos), extended);
            if spec.Ok? then r == Ok(spec.value.0) && stream.pos == spec.value.1 else r == Err(spec.error)
  {
    VlrWidthsSum(extended);
    var header := stream.Read(VlrHeaderSize(extended));
    if header.Err? { return Err(header.error); }
    var c := Split(header.value, VlrWidths(extended));
    var length := if extended then Extended(GetU64(c[3])) else Regular(GetU16(c[3]));
    var data := stream.Read(length.Count());
    if data.Err? { return Err(data.error); }
    return Ok(RawVlr(GetU16(c[0]), c[1], GetU16(c[2]), length, c[4], data.value));
  }

  lemma {:induction false} ReadVlrsAppends(s: seq<byte>, pos: nat, n: nat)
    ensures ReadVlrs(s, pos, n).Err? ==> ReadVlrs(s, pos, n + 1) == Err(ReadVlrs(s, pos, n).error)
    ensures ReadVlrs(s, pos, n).Ok? ==>
              var front := ReadVlrs(s, pos, n).value;
              var next := ReadRawVlr(s, front.1, false);
              ReadVlrs(s, pos, n + 1)
              == if next.Ok? then Ok((front.0 + [NewVlr(next.value.0)], next.value.1)) else Err(next.error)
    decreases n
  {
    hide ReadRawVlr, NewVlr;
    if n > 0 {
      var first := ReadRawVlr(s, pos, false);
      if first.Ok? {
        ReadVlrsAppends(s, first.value.1, n - 1);
        var rest := ReadVlrs(s, first.value.1, n - 1);
        if rest.Ok? {
          var next := ReadRawVlr(s, rest.value.1, false);
          if next.Ok? {
            var x: seq<Vlr>, y: seq<Vlr> := [NewVlr(first.value.0)], [NewVlr(next.value.0)];
            assert x + (rest.value.0 + y) == (x + rest.value.0) + y;
          }
        }
      }
    } else {
      var next := ReadRawVlr(s, pos, false);
      if next.Ok? {
        var v: seq<Vlr> := [NewVlr(next.value.0)];
        assert v + [] == v && [] + v == v;
        assert ReadVlrs(s, next.value.1, 0) == Ok(([], next.value.1));
      }
    }
  }

  lemma {:induction false} ReadVlrsFails(s: seq<byte>, pos: nat, m: nat, n: nat)
    requires m <= n && ReadVlrs(s, pos, m).Err?
    ensures ReadVlrs(s, pos, n) == Err(ReadVlrs(s, pos, m).error)
    decreases n
  {
    if m < n {
      ReadVlrsFails(s, pos, m, n - 1);
      ReadVlrsAppends(s, pos, n - 1);
    }
  }

  lemma {:induction false} VlrsLenAppends(vs: seq<Vlr>, v: Vlr)
    ensures VlrsLen(vs + [v], false) == VlrsLen(vs, false) + v.Len(false)
  {
    if vs == [] {
      assert vs + [v] == [v] && [v][1..] == [];
    } else {
      VlrsLenAppends(vs[1..], v);
      assert (vs + [v])[1..] == vs[1..] + [v];
    }
  }

  /** The loop over the announced number of records. */
  method ReadVlrsFrom(stream: Stream, n: nat) returns (r: Result<seq<Vlr>>, length: nat)
    modifies stream`pos
    ensures var spec := ReadVlrs(stream.bytes, old(stream.pos), n);
            if spec.Ok? then
              r == Ok(spec.value.0) && stream.pos == spec.value.1 && length == VlrsLen(spec.value.0, false)
            else r == Err(spec.error)
  {
    hide ReadRawVlr, NewVlr;
    var vs := [];
    length := 0;
    for i := 0 to n
      invariant ReadVlrs(stream.bytes, old(stream.pos), i) == Ok((vs, stream.pos))
      invariant length == VlrsLen(vs, false)
    {
      ReadVlrsAppends(stream.bytes, old(stream.pos), i);
      var raw := ReadRawVlrFrom(stream, false);
      if raw.Err? {
        ReadVlrsFails(stream.bytes, old(stream.pos), i + 1, n);
        return Err(raw.error), 0;
      }
      VlrsLenAppends(vs, NewVlr(raw.value));
      vs := vs + [NewVlr(raw.value)];
      length := length + NewVlr(raw.value).Len(false);
    }
    return Ok(vs), length;
  }

  method ReadEvlrFrom(stream: Stream, evlr: Option<RawHeaders.Evlr>, isCompressed: bool, end: nat)
    returns (r: Result<(seq<byte>, seq<Vlr>)>)
    modifies stream`pos
    ensures r == ReadEvlr(stream.bytes, evlr, isCompressed, end)
  {
    hide ReadRawVlr, NewVlr;
    stream.SeekStart(end);
    if evlr.None? {
      return Ok(([], []));
    }
    var start := evlr.value.startOfFirstEvlr;
    var padding := [];
    if !isCompressed {
      if start < end {
        return Err(OffsetToEvlrsTooSmall(start));
      }
      padding := stream.ReadUpTo(start - end);
    }
    stream.SeekStart(start);
    var raw := ReadRawVlrFrom(stream, true);
    if raw.Err? {
      return Err(raw.error);
    }
    return Ok((padding, [NewVlr(raw.value)]));
  }

  /** Reads all metadata and leaves the stream at the offset of the point data. */
  method ReadHeaderFrom(fp: Fp, stream: Stream) returns (r: Result<Header>)
    modifies stream`pos
    ensures var spec := ReadHeader(fp, stream.bytes, old(stream.pos));
            if spec.Ok? then r == Ok(spec.value.0) && stream.pos == spec.value.1 else r == Err(spec.error)
  {
    hide RawHeaders.ReadRawHeader, NewBuilder, ReadVlrs, VlrsLen, TakeAt, ReadEvlr, IntoHeader, Accepts, LeastAccepting;
    var raw := ReadRawHeaderFrom(stream);
    if raw.Err? { return Err(raw.error); }
    var layout := raw.value.layout;
    var built := NewBuilder(fp, raw.value);
    if built.Err? { return Err(built.error); }
    var builder := built.value;
    var vs, length := ReadVlrsFrom(stream, layout.numberOfVlrs);
    if vs.Err? { return Err(vs.error); }
    builder := builder.(vlrs := vs.value);
    var position := layout.headerSize + length;
    if position > layout.offsetToPointData {
      return Err(OffsetToPointDataTooSmall(layout.offsetToPointData));
    }
    var vlrPadding := stream.ReadUpTo(layout.offsetToPointData - position);
    var tail := ReadEvlrFrom(stream, raw.value.evlr, builder.pointFormat.isCompressed, raw.value.OffsetToEndOfPoints());
    if tail.Err? { return Err(tail.error); }
    stream.SeekStart(layout.offsetToPointData);
    builder := builder.(vlrPadding := vlrPadding, pointPadding := tail.value.0, evlrs := tail.value.1);
    r := BuildUpgraded(builder);
  }

  /** Builds a header of the version that was read, or of the least one that has what it uses. */
  method BuildUpgraded(b: Builder) returns (r: Result<Header>)
    ensures r == IntoHeader(Upgraded(b))
  {
    hide IntoHeader, Accepts, LeastAccepting;
    var builder := b;
    var minimum := FindMinimumSupportedVersion(builder);
    if minimum.Some? && !minimum.value.AtMost(builder.version) {
      builder := builder.(version := minimum.value);
    }
    r := BuildHeader(builder);
  }

  // Points

  /** The point at an index of the point data that starts at `start`. */
  function PointAt(fp: Fp, h: Header, s: seq<byte>, start: nat, i: nat): Point
    requires start + (i + 1) * h.pointFormat.Len() <= |s|
  {
    var at := start + i * h.pointFormat.Len();
    NextRecord(i, h.pointFormat.Len());
    NewPoint(fp, DecodePoint(s[at..at + h.pointFormat.Len()], h.pointFormat), TransformsOf(fp, h))
  }

  lemma NextRecord(i: nat, n: nat)
    ensures (i + 1) * n == i * n + n
  {
  }

  lemma RecordsBefore(i: nat, j: nat, n: nat)
    requires i <= j
    ensures i * n <= j * n
  {
  }

  predicate Complete(h: Header, s: seq<byte>, start: nat) {
    start + h.numberOfPoints * h.pointFormat.Len() <= |s|
  }

  /** All the points of a file, in order. */
  function PointsFrom(fp: Fp, h: Header, s: seq<byte>, start: nat, n: nat): (ps: seq<Point>)
    requires Complete(h, s, start) && n <= h.numberOfPoints
    ensures |ps| == n
    ensures forall i | 0 <= i < n ::
              (RecordsBefore(i + 1, h.numberOfPoints, h.pointFormat.Len()); ps[i] == PointAt(fp, h, s, start, i))
  {
    if n == 0 then []
    else
      RecordsBefore(n, h.numberOfPoints, h.pointFormat.Len());
      PointsFrom(fp, h, s, start, n - 1) + [PointAt(fp, h, s, start, n - 1)]
  }

  // The abstract reader: a list of points and a cursor

  datatype Request = ReadOne | ReadMany(n: nat) | SeekTo(index: nat)

  function Min(a: nat, b: nat): nat {
    if a < b then a else b
  }

  function CursorAfter(count: nat, cursor: nat, q: Request): nat
    requires cursor <= count && (q.SeekTo? ==> q.index <= count)
  {
    match q
    case ReadOne => Min(cursor + 1, count)
    case ReadMany(n) => cursor + Min(n, count - cursor)
    case SeekTo(i) => i
  }

  /** What a request yields: the points the cursor passes over. */
  function Yields(ps: seq<Point>, cursor: nat, q: Request): seq<Point>
    requires cursor <= |ps| && (q.SeekTo? ==> q.index <= |ps|)
  {
    if q.SeekTo? then [] else ps[cursor..CursorAfter(|ps|, cursor, q)]
  }

  predicate Allowed(count: nat, qs: seq<Request>) {
    forall q | q in qs :: q.SeekTo? ==> q.index <= count
  }

  function YieldsAll(ps: seq<Point>, cursor: nat, qs: seq<Request>): seq<seq<Point>>
    requires cursor <= |ps| && Allowed(|ps|, qs)
    decreases |qs|
  {
    if qs == [] then []
    else
      [Yields(ps, cursor, qs[0])] + YieldsAll(ps, CursorAfter(|ps|, cursor, qs[0]), qs[1..])
  }

  function Concat(chunks: seq<seq<Point>>): seq<Point> {
    if chunks == [] then [] else chunks[0] + Concat(chunks[1..])
  }

  function CursorAfterAll(count: nat, cursor: nat, qs: seq<Request>): (c: nat)
    requires cursor <= count && Allowed(count, qs)
    ensures c <= count
    decreases |qs|
  {
    if qs == [] then cursor else CursorAfterAll(count, CursorAfter(count, cursor, qs[0]), qs[1..])
  }

  /** However a reader without seeks partitions its requests, the chunks concatenate to the points in order. */
  lemma {:induction false} ChunksConcatenate(ps: seq<Point>, cursor: nat, qs: seq<Request>)
    requires cursor <= |ps| && forall q | q in qs :: !q.SeekTo?
    ensures Allowed(|ps|, qs)
    ensures var end := CursorAfterAll(|ps|, cursor, qs);
            cursor <= end && Concat(YieldsAll(ps, cursor, qs)) == ps[cursor..end]
    decreases |qs|
  {
    if qs != [] {
      assert forall q | q in qs[1..] :: q in qs;
      assert qs[0] in qs;
      ChunksConcatenate(ps, CursorAfter(|ps|, cursor, qs[0]), qs[1..]);
    }
  }

  class PointReader {
    const fp: Fp
    const stream: Stream
    const header: Header
    const start: nat
    var index: nat

    /** The position of the stream is the record of the index, and all records are there. */
    ghost predicate Valid()
      reads this, stream
    {
      && Complete(header, stream.bytes, start)
      && index <= header.numberOfPoints
      && stream.pos == start + index * header.pointFormat.Len()
    }

    ghost function Points(): seq<Point>
      requires Valid()
      reads this, stream
    {
      PointsFrom(fp, header, stream.bytes, start, header.numberOfPoints)
    }

    constructor (fp: Fp, stream: Stream, header: Header)
      ensures this.fp == fp && this.stream == stream && this.header == header && start == stream.pos && index == 0
    {
      this.fp, this.stream, this.header, this.start, this.index := fp, stream, header, stream.pos, 0;
    }

    /** The next point, or none at the end. A record that is not there is an error. */
    method ReadPoint() returns (r: Result<Option<Point>>)
      modifies this`index, stream`pos
      ensures old(index) >= header.numberOfPoints ==>
                r == Ok(None) && index == old(index) && stream.pos == old(stream.pos)
      ensures old(index) < header.numberOfPoints ==>
                && index == old(index) + 1
                && match ReadExact(stream.bytes, old(stream.pos), header.pointFormat.Len())
                   case Ok(record) =>
                     && r == Ok(Some(NewPoint(fp, DecodePoint(record, header.pointFormat), TransformsOf(fp, header))))
                     && stream.pos == old(stream.pos) + header.pointFormat.Len()
                   case Err(e) => r == Err(e)
      ensures old(Valid()) ==>
                && Valid() && index == CursorAfter(|Points()|, old(index), ReadOne)
                && r == Ok(if old(index) < |Points()| then Some(Points()[old(index)]) else None)
    {
      hide PointsFrom, DecodePoint, NewPoint, TransformsOf;
      var n := header.pointFormat.Len();
      if index < header.numberOfPoints {
        NextRecord(index, n);
        RecordsBefore(index + 1, header.numberOfPoints, n);
        index := index + 1;
        var record := stream.Read(n);
        if record.Err? {
          return Err(record.error);
        }
        var raw := DecodePoint(record.value, header.pointFormat);
        return Ok(Some(NewPoint(fp, raw, TransformsOf(fp, header))));
      }
      return Ok(None);
    }

    /** Up to `n` points, appended to a vector. The number of points left is an unsigned difference. */
    method ReadPoints(n: nat, before: seq<Point>) returns (points: seq<Point>, r: Result<nat>)
      requires index <= header.numberOfPoints
      modifies this`index, stream`pos
      ensures before <= points
      ensures old(Valid()) ==>
                && Valid() && index == CursorAfter(|Points()|, old(index), ReadMany(n))
                && points == before + Yields(Points(), old(index), ReadMany(n))
                && r == Ok(index - old(index))
    {
      hide PointsFrom, DecodePoint, NewPoint, TransformsOf;
      points := before;
      var count := 0;
      var m := Min(header.numberOfPoints - index, n);
      for i := 0 to m
        invariant index == old(index) + i && count == i && before <= points
        invariant old(Valid()) ==> Valid() && points == before + Points()[old(index)..index]
      {
        var point := ReadPoint();
        if point.Err? {
          return points, Err(point.error);
        }
        if point.value.None? {
          break;
        }
        points := points + [point.value.value];
        count := count + 1;
      }
      return points, Ok(count);
    }

    method Seek(i: nat)
      modifies this`index, stream`pos
      ensures index == i && stream.pos == start + i * header.pointFormat.Len()
      ensures old(Valid()) && i <= header.numberOfPoints ==> Valid()
    {
      index := i;
      stream.SeekStart(start + i * header.pointFormat.Len());
    }

    method ServeOne(q: Request) returns (chunk: seq<Point>)
      requires Valid() && (q.SeekTo? ==> q.index <= header.numberOfPoints)
      modifies this`index, stream`pos
      ensures Valid() && chunk == Yields(Points(), old(index), q) && index == CursorAfter(|Points()|, old(index), q)
    {
      hide PointsFrom, PointReader.Points, DecodePoint, NewPoint, TransformsOf;
      PointsCount();
      chunk := [];
      match q {
        case ReadOne =>
          var point := ReadPoint();
          if point.Ok? && point.value.Some? {
            chunk := [point.value.value];
          }
        case ReadMany(n) =>
          var count;
          chunk, count := ReadPoints(n, []);
        case SeekTo(i) =>
          Seek(i);
      }
    }

    lemma PointsCount()
      requires Valid()
      ensures |Points()| == header.numberOfPoints
    {
    }

    /** Any run of requests behaves as the list of points with a cursor does. */
    method Serve(qs: seq<Request>) returns (chunks: seq<seq<Point>>)
      requires Valid() && Allowed(header.numberOfPoints, qs)
      modifies this`index, stream`pos
      ensures Valid()
      ensures chunks == YieldsAll(Points(), old(index), qs)
      ensures index == CursorAfterAll(|Points()|, old(index), qs)
      decreases |qs|
    {
      hide PointsFrom, Yields, CursorAfter;
      if qs == [] {
        return [];
      }
      assert qs[0] in qs && forall q | q in qs[1..] :: q in qs;
      var chunk := ServeOne(qs[0]);
      var rest := Serve(qs[1..]);
      return [chunk] + rest;
    }
  }
}
