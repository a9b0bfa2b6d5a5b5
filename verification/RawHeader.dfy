/** The public header block and its version-dependent codec. */
module RawHeaders {
  import opened Wrappers
  import opened Bytes
  import opened Versions

  const LASF: seq<byte> := [0x4C, 0x41, 0x53, 0x46]

  datatype Identity = Identity(
    signature: seq<byte>,
    fileSourceId: u16,
    globalEncoding: u16,
    guid: seq<byte>,
    version: Version,
    systemIdentifier: seq<byte>,
    generatingSoftware: seq<byte>,
    dayOfYear: u16,
    year: u16)

  datatype Layout = Layout(
    headerSize: u16,
    offsetToPointData: u32,
    numberOfVlrs: u32,
    formatId: u8,
    recordLength: u16,
    numberOfPointRecords: u32,
    byReturn: seq<u32>)

  /** The twelve `f64` words, in file order. */
  datatype Extents = Extents(
    xScale: u64, yScale: u64, zScale: u64,
    xOffset: u64, yOffset: u64, zOffset: u64,
    maxX: u64, minX: u64, maxY: u64, minY: u64, maxZ: u64, minZ: u64)

  datatype Evlr = Evlr(startOfFirstEvlr: u64, numberOfEvlrs: u32)

  datatype LargeFile = LargeFile(numberOfPointRecords: u64, byReturn: seq<u64>)

  datatype RawHeader = RawHeader(
    identity: Identity,
    layout: Layout,
    extents: Extents,
    startOfWaveform: Option<u64>,
    evlr: Option<Evlr>,
    largeFile: Option<LargeFile>,
    padding: seq<byte>)
  {
    function Version(): Version {
      identity.version
    }

    /** The legacy count wins unless it is zero. */
    function NumberOfPointRecords(): u64 {
      match largeFile
      case Some(lf) => if layout.numberOfPointRecords != 0 then layout.numberOfPointRecords else lf.numberOfPointRecords
      case None => layout.numberOfPointRecords
    }

    function OffsetToEndOfPoints(): nat {
      layout.offsetToPointData + NumberOfPointRecords() * layout.recordLength
    }
  }

  predicate WellFormed(r: RawHeader) {
    && |r.identity.signature| == 4
    && |r.identity.guid| == 16
    && |r.identity.systemIdentifier| == 32
    && |r.identity.generatingSoftware| == 32
    && |r.layout.byReturn| == 5
    && (r.largeFile.Some? ==> |r.largeFile.value.byReturn| == 15)
  }

  // Writing

  const IDENTITY_WIDTHS: seq<nat> := [4, 2, 2, 16, 1, 1, 32, 32, 2, 2]
  const LAYOUT_WIDTHS: seq<nat> := [2, 4, 4, 1, 2, 4, 20]

  function IdentityFields(i: Identity): seq<seq<byte>> {
    [i.signature, U16Bytes(i.fileSourceId), U16Bytes(i.globalEncoding), i.guid, [i.version.major], [i.version.minor],
     i.systemIdentifier, i.generatingSoftware, U16Bytes(i.dayOfYear), U16Bytes(i.year)]
  }

  function LayoutFields(l: Layout): seq<seq<byte>> {
    [U16Bytes(l.headerSize), U32Bytes(l.offsetToPointData), U32Bytes(l.numberOfVlrs), [l.formatId],
     U16Bytes(l.recordLength), U32Bytes(l.numberOfPointRecords), U32sBytes(l.byReturn)]
  }

  function ExtentWords(e: Extents): (w: seq<u64>)
    ensures |w| == 12
  {
    [e.xScale, e.yScale, e.zScale, e.xOffset, e.yOffset, e.zOffset, e.maxX, e.minX, e.maxY, e.minY, e.maxZ, e.minZ]
  }

  const NO_EVLR := Evlr(0, 0)
  const NO_LARGE_FILE := LargeFile(0, [0, 0, 0, 0, 0, 0, 0, 0, 0, 0, 0, 0, 0, 0, 0])

  function WaveformBytes(r: RawHeader): (s: seq<byte>)
    ensures |s| == if r.Version().Supports(Waveforms) then 8 else 0
  {
    if !r.Version().Supports(Waveforms) then []
    else U64Bytes(match r.startOfWaveform case Some(n) => n case None => 0)
  }

  function EvlrBytes(r: RawHeader): (s: seq<byte>)
    ensures |s| == if r.Version().Supports(Evlrs) then 12 else 0
  {
    if !r.Version().Supports(Evlrs) then []
    else
      var e := match r.evlr case Some(e) => e case None => NO_EVLR;
      U64Bytes(e.startOfFirstEvlr) + U32Bytes(e.numberOfEvlrs)
  }

  function LargeFileBytes(r: RawHeader): (s: seq<byte>)
    requires WellFormed(r)
    ensures |s| == if r.Version().Supports(LargeFiles) then 128 else 0
  {
    if !r.Version().Supports(LargeFiles) then []
    else
      var l := match r.largeFile case Some(l) => l case None => NO_LARGE_FILE;
      U64Bytes(l.numberOfPointRecords) + U64sBytes(l.byReturn)
  }

  /** The first 227 bytes, common to all versions. */
  function FixedBytes(r: RawHeader): seq<byte> {
    Join(IdentityFields(r.identity)) + Join(LayoutFields(r.layout)) + U64sBytes(ExtentWords(r.extents))
  }

  function EncodeRawHeader(r: RawHeader): seq<byte>
    requires WellFormed(r)
  {
    FixedBytes(r) + WaveformBytes(r) + EvlrBytes(r) + LargeFileBytes(r) + r.padding
  }

  // Reading

  lemma IdentityWidths()
    ensures Sum(IDENTITY_WIDTHS) == 94
  {
    var w := IDENTITY_WIDTHS;
    assert w == w[..4] + w[4..8] + w[8..];
    SumAppend(w[..4] + w[4..8], w[8..]);
    SumAppend(w[..4], w[4..8]);
    SumOfFour(w[..4]);
    SumOfFour(w[4..8]);
    assert w[8..] == [2, 2];
  }

  lemma LayoutWidths()
    ensures Sum(LAYOUT_WIDTHS) == 37
  {
    var v := LAYOUT_WIDTHS;
    assert v == v[..4] + v[4..];
    SumAppend(v[..4], v[4..]);
    SumOfFour(v[..4]);
    assert v[4..] == [2, 4, 20];
  }

  function GetIdentity(s: seq<byte>): (i: Identity)
    requires |s| == 94
    ensures |i.signature| == 4 && |i.guid| == 16 && |i.systemIdentifier| == 32 && |i.generatingSoftware| == 32
  {
    IdentityWidths();
    var c := Split(s, IDENTITY_WIDTHS);
    Identity(c[0], GetU16(c[1]), GetU16(c[2]), c[3], Version(c[4][0], c[5][0]), c[6], c[7], GetU16(c[8]), GetU16(c[9]))
  }

  function GetLayout(s: seq<byte>): (l: Layout)
    requires |s| == 37
    ensures |l.byReturn| == 5
  {
    LayoutWidths();
    var c := Split(s, LAYOUT_WIDTHS);
    Layout(GetU16(c[0]), GetU32(c[1]), GetU32(c[2]), c[3][0], GetU16(c[4]), GetU32(c[5]), GetU32s(c[6], 5))
  }

  function GetExtents(s: seq<byte>): Extents
    requires |s| == 96
  {
    var w := GetU64s(s, 12);
    Extents(w[0], w[1], w[2], w[3], w[4], w[5], w[6], w[7], w[8], w[9], w[10], w[11])
  }

  function GetEvlr(s: seq<byte>): Option<Evlr>
    requires |s| == 12
  {
    var e := Evlr(GetU64(s[..8]), GetU32(s[8..]));
    if e.startOfFirstEvlr > 0 && e.numberOfEvlrs > 0 then Some(e) else None
  }

  function GetLargeFile(s: seq<byte>): (l: LargeFile)
    requires |s| == 128
    ensures |l.byReturn| == 15
  {
    LargeFile(GetU64(s[..8]), GetU64s(s[8..], 15))
  }

  /** The part that all versions have. */
  function ReadFixed(s: seq<byte>, pos: nat): (r: Result<(Identity, Layout, Extents)>)
    ensures r.Ok? ==> var i := r.value.0;
                      && |i.signature| == 4 && |i.guid| == 16
                      && |i.systemIdentifier| == 32 && |i.generatingSoftware| == 32
                      && |r.value.1.byReturn| == 5
  {
    var signature :- ReadExact(s, pos, 4);
    if signature != LASF then Err(InvalidFileSignature)
    else
      var i :- ReadExact(s, pos, 94);
      var l :- ReadExact(s, pos + 94, 37);
      var e :- ReadExact(s, pos + 131, 96);
      Ok((GetIdentity(i), GetLayout(l), GetExtents(e)))
  }

  /** The fields that only some versions have, and the padding. */
  datatype VersionFields = VersionFields(
    startOfWaveform: Option<u64>,
    evlr: Option<Evlr>,
    largeFile: Option<LargeFile>,
    padding: seq<byte>)

  /** The version-dependent fields at `pos` and the position after them. */
  function ReadVersionFields(s: seq<byte>, pos: nat, v: Version, headerSize: u16): (r: Result<(VersionFields, nat)>)
    ensures r.Ok? && r.value.0.largeFile.Some? ==> |r.value.0.largeFile.value.byReturn| == 15
  {
    var w :- ReadExact(s, pos, if v.Supports(Waveforms) then 8 else 0);
    var p1 := pos + |w|;
    var ev :- ReadExact(s, p1, if v.Supports(Evlrs) then 12 else 0);
    var p2 := p1 + |ev|;
    var lf :- ReadExact(s, p2, if v.Supports(LargeFiles) then 128 else 0);
    var p3 := p2 + |lf|;
    var padding :- ReadExact(s, p3, if headerSize > v.HeaderSize() then headerSize - v.HeaderSize() else 0);
    Ok((VersionFields(
          if v.Supports(Waveforms) && GetU64(w) != 0 then Some(GetU64(w)) else None,
          if v.Supports(Evlrs) then GetEvlr(ev) else None,
          if v.Supports(LargeFiles) then Some(GetLargeFile(lf)) else None,
          padding),
        p3 + |padding|))
  }

  /** The header at `pos` and the position after it. */
  function ReadRawHeader(s: seq<byte>, pos: nat): (result: Result<(RawHeader, nat)>)
    ensures result.Ok? ==> WellFormed(result.value.0)
  {
    var fixed :- ReadFixed(s, pos);
    var (identity, layout, extents) := fixed;
    var rest :- ReadVersionFields(s, pos + 227, identity.version, layout.headerSize);
    var f := rest.0;
    Ok((RawHeader(identity, layout, extents, f.startOfWaveform, f.evlr, f.largeFile, f.padding), rest.1))
  }

  /** The header as reading gives it back: fields the version lacks, and zero markers, are absent. */
  function Canonical(r: RawHeader): RawHeader {
    var v := r.Version();
    r.(startOfWaveform := if v.Supports(Waveforms) && r.startOfWaveform != Some(0) then r.startOfWaveform else None,
       evlr := if v.Supports(Evlrs) && r.evlr.Some?
                  && r.evlr.value.startOfFirstEvlr > 0 && r.evlr.value.numberOfEvlrs > 0
               then r.evlr else None,
       largeFile := if !v.Supports(LargeFiles) then None
                    else if r.largeFile.None? then Some(NO_LARGE_FILE) else r.largeFile)
  }

  lemma IdentityReadsBack(i: Identity)
    requires |i.signature| == 4 && |i.guid| == 16 && |i.systemIdentifier| == 32 && |i.generatingSoftware| == 32
    ensures |Join(IdentityFields(i))| == 94 && GetIdentity(Join(IdentityFields(i))) == i
    ensures Join(IdentityFields(i))[..4] == i.signature
  {
    hide U16Bytes, Sum, Split;
    IdentityWidths();
    var fields := IdentityFields(i);
    SplitJoin(fields, IDENTITY_WIDTHS, []);
    assert Join(fields) + [] == Join(fields);
    assert Split(Join(fields), IDENTITY_WIDTHS) == fields;
  }

  lemma LayoutReadsBack(l: Layout)
    requires |l.byReturn| == 5
    ensures |Join(LayoutFields(l))| == 37 && GetLayout(Join(LayoutFields(l))) == l
  {
    hide U16Bytes, U32Bytes, U32sBytes, GetU32s, Sum, Split, Join;
    LayoutWidths();
    var fields := LayoutFields(l);
    SplitJoin(fields, LAYOUT_WIDTHS, []);
    assert Join(fields) + [] == Join(fields);
    U32sReadBack(l.byReturn);
    assert Split(Join(fields), LAYOUT_WIDTHS) == fields;
  }

  lemma ExtentsReadBack(e: Extents)
    ensures GetExtents(U64sBytes(ExtentWords(e))) == e
  {
    U64sReadBack(ExtentWords(e));
  }

  lemma WaveformReadsBack(r: RawHeader)
    ensures r.Version().Supports(Waveforms) ==>
              Canonical(r).startOfWaveform
              == if GetU64(WaveformBytes(r)) != 0 then Some(GetU64(WaveformBytes(r))) else None
  {
    hide U64Bytes;
  }

  lemma EvlrReadsBack(r: RawHeader)
    ensures r.Version().Supports(Evlrs) ==> GetEvlr(EvlrBytes(r)) == Canonical(r).evlr
  {
    hide U64Bytes, U32Bytes;
    if r.Version().Supports(Evlrs) {
      var e := match r.evlr case Some(e) => e case None => NO_EVLR;
      var s := EvlrBytes(r);
      assert s[..8] == U64Bytes(e.startOfFirstEvlr) && s[8..] == U32Bytes(e.numberOfEvlrs);
    }
  }

  lemma LargeFileReadsBack(r: RawHeader)
    requires WellFormed(r)
    ensures r.Version().Supports(LargeFiles) ==> Some(GetLargeFile(LargeFileBytes(r))) == Canonical(r).largeFile
  {
    hide U64Bytes, U64sBytes, GetU64s;
    if r.Version().Supports(LargeFiles) {
      var l := match r.largeFile case Some(l) => l case None => NO_LARGE_FILE;
      var s := LargeFileBytes(r);
      assert s[..8] == U64Bytes(l.numberOfPointRecords) && s[8..] == U64sBytes(l.byReturn);
      U64sReadBack(l.byReturn);
    }
  }

  /** The encoded length is the declared header size exactly for the versions up to 1.4. */
  lemma EncodedHeaderLength(r: RawHeader)
    requires WellFormed(r)
    ensures |EncodeRawHeader(r)| == r.Version().HeaderSize() + |r.padding|
            <==> r.Version().major == 0 || (r.Version().major == 1 && r.Version().minor <= 4)
  {
    hide Join, IdentityFields, LayoutFields, U64sBytes, ExtentWords, WaveformBytes, EvlrBytes, LargeFileBytes;
    IdentityReadsBack(r.identity);
    LayoutReadsBack(r.layout);
  }

  /** Reading an encoded header gives its canonical form and consumes exactly its bytes. */
  lemma RawHeaderReadsBack(s: seq<byte>, pos: nat, r: RawHeader)
    requires WellFormed(r) && r.identity.signature == LASF
    requires r.layout.headerSize == r.Version().HeaderSize() + |r.padding|
    requires At(s, pos, EncodeRawHeader(r))
    ensures ReadRawHeader(s, pos) == Ok((Canonical(r), pos + |EncodeRawHeader(r)|))
  {
    hide At, ReadExact, GetIdentity, GetLayout, GetExtents, GetEvlr, GetLargeFile, WaveformBytes, EvlrBytes;
    hide LargeFileBytes, Join, U64sBytes, IdentityFields, LayoutFields, ExtentWords;
    IdentityReadsBack(r.identity);
    LayoutReadsBack(r.layout);
    ExtentsReadBack(r.extents);
    WaveformReadsBack(r);
    EvlrReadsBack(r);
    LargeFileReadsBack(r);
    PartsAt(s, pos, r);
    ReadsWhatIsAt(s, pos, r.identity.signature);
    ReadsWhatIsAt(s, pos, Join(IdentityFields(r.identity)));
    ReadsWhatIsAt(s, pos + 94, Join(LayoutFields(r.layout)));
    ReadsWhatIsAt(s, pos + 131, U64sBytes(ExtentWords(r.extents)));
    var p := pos + 227;
    ReadsWhatIsAt(s, p, WaveformBytes(r));
    ReadsWhatIsAt(s, p + |WaveformBytes(r)|, EvlrBytes(r));
    ReadsWhatIsAt(s, p + |WaveformBytes(r)| + |EvlrBytes(r)|, LargeFileBytes(r));
    ReadsWhatIsAt(s, p + |WaveformBytes(r)| + |EvlrBytes(r)| + |LargeFileBytes(r)|, r.padding);
  }

  lemma PartsAt(s: seq<byte>, pos: nat, r: RawHeader)
    requires WellFormed(r) && At(s, pos, EncodeRawHeader(r))
    ensures |Join(IdentityFields(r.identity))| == 94 && |Join(LayoutFields(r.layout))| == 37
    ensures At(s, pos, r.identity.signature)
    ensures At(s, pos, Join(IdentityFields(r.identity)))
    ensures At(s, pos + 94, Join(LayoutFields(r.layout)))
    ensures At(s, pos + 131, U64sBytes(ExtentWords(r.extents)))
    ensures var p := pos + 227;
            && At(s, p, WaveformBytes(r))
            && At(s, p + |WaveformBytes(r)|, EvlrBytes(r))
            && At(s, p + |WaveformBytes(r)| + |EvlrBytes(r)|, LargeFileBytes(r))
            && At(s, p + |WaveformBytes(r)| + |EvlrBytes(r)| + |LargeFileBytes(r)|, r.padding)
            && |EncodeRawHeader(r)| == 227 + |WaveformBytes(r)| + |EvlrBytes(r)| + |LargeFileBytes(r)| + |r.padding|
  {
    hide At, WaveformBytes, EvlrBytes, LargeFileBytes, Join, U64sBytes, IdentityFields, LayoutFields, ExtentWords;
    IdentityReadsBack(r.identity);
    LayoutReadsBack(r.layout);
    var i, l, e := Join(IdentityFields(r.identity)), Join(LayoutFields(r.layout)), U64sBytes(ExtentWords(r.extents));
    var w, ev, lf := WaveformBytes(r), EvlrBytes(r), LargeFileBytes(r);
    AtAppend(s, pos, i + l + e + w + ev + lf, r.padding);
    AtAppend(s, pos, i + l + e + w + ev, lf);
    AtAppend(s, pos, i + l + e + w, ev);
    AtAppend(s, pos, i + l + e, w);
    AtAppend(s, pos, i + l, e);
    AtAppend(s, pos, i, l);
    assert i == r.identity.signature + i[4..];
    AtAppend(s, pos, r.identity.signature, i[4..]);
  }
}
