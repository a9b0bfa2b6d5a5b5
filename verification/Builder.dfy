/** Building headers: from raw headers, by normalisation, and at the least sufficient version. */
module Builders {
  import opened Wrappers
  import opened Versions
  import opened Formats
  import opened Transforms
  import opened BoundingBoxes
  import opened VariableRecords
  import RawHeaders
  import opened Headers

  const POINT_DATA_START_SIGNATURE: seq<byte> := [0xCC, 0xDD]

  datatype Builder = Builder(
    date: Option<Date>,
    fileSourceId: u16,
    generatingSoftware: seq<byte>,
    gpsStandard: bool,
    guid: seq<byte>,
    hasSyntheticReturnNumbers: bool,
    hasWktCrs: bool,
    padding: seq<byte>,
    pointFormat: Format,
    pointPadding: seq<byte>,
    systemIdentifier: seq<byte>,
    transforms: Vector<TransformWords>,
    version: Version,
    vlrPadding: seq<byte>,
    vlrs: seq<Vlr>,
    evlrs: seq<Vlr>,
    byReturn: map<u8, u64>,
    numberOfPoints: u64,
    bounds: Bounds)

  // From a raw header

  predicate HasCount(counts: seq<u64>, k: u8) {
    1 <= k <= |counts| && counts[k - 1] > 0
  }

  /** The positive counts of an array, by return number. */
  function HistogramOf(counts: seq<u64>): map<u8, u64> {
    map k: u8 | HasCount(counts, k) :: counts[k - 1]
  }

  /** Legacy counts win as soon as one of them is positive. */
  function HistogramFromRaw(raw: RawHeaders.RawHeader): map<u8, u64> {
    if exists n | n in raw.layout.byReturn :: n > 0 then HistogramOf(raw.layout.byReturn)
    else match raw.largeFile
      case Some(lf) => HistogramOf(lf.byReturn)
      case None => map[]
  }

  function PointsFromRaw(raw: RawHeaders.RawHeader): u64 {
    if raw.layout.numberOfPointRecords > 0 then raw.layout.numberOfPointRecords
    else match raw.largeFile
      case Some(lf) => lf.numberOfPointRecords
      case None => 0
  }

  predicate IsLeapYear(year: int) {
    year % 4 == 0 && (year % 100 != 0 || year % 400 == 0)
  }

  predicate ValidDate(d: Date) {
    1 <= d.ordinal <= if IsLeapYear(d.year) then 366 else 365
  }

  function DateFromRaw(year: u16, day: u16): Option<Date> {
    var d := Date(year, day);
    if ValidDate(d) then Some(d) else None
  }

  function FormatFromRaw(raw: RawHeaders.RawHeader): Result<Format> {
    var format :- NewFormat(raw.layout.formatId);
    var n := format.Len();
    if raw.layout.recordLength < n then Err(PointDataRecordLengthTooLarge(raw.layout.recordLength))
    else Ok(format.(extraBytes := raw.layout.recordLength - n))
  }

  function BoundsFromRaw(fp: Fp, e: RawHeaders.Extents): Bounds {
    Bounds(Vector(fp.dec(e.minX), fp.dec(e.minY), fp.dec(e.minZ)),
           Vector(fp.dec(e.maxX), fp.dec(e.maxY), fp.dec(e.maxZ)))
  }

  function NewBuilder(fp: Fp, raw: RawHeaders.RawHeader): Result<Builder> {
    var format :- FormatFromRaw(raw);
    var i, e := raw.identity, raw.extents;
    Ok(Builder(
      DateFromRaw(i.year, i.dayOfYear),
      i.fileSourceId,
      LasString(i.generatingSoftware),
      i.globalEncoding % 2 == 1,
      i.guid,
      i.globalEncoding / 8 % 2 == 1,
      i.globalEncoding / 16 % 2 == 1,
      raw.padding,
      format,
      [],
      LasString(i.systemIdentifier),
      Vector(TransformWords(e.xScale, e.xOffset),
             TransformWords(e.yScale, e.yOffset),
             TransformWords(e.zScale, e.zOffset)),
      i.version,
      [],
      [],
      [],
      HistogramFromRaw(raw),
      PointsFromRaw(raw),
      BoundsFromRaw(fp, e)))
  }

  // Normalisation

  predicate EndsWithSignature(padding: seq<byte>) {
    |padding| >= 2 && padding[|padding| - 2..] == POINT_DATA_START_SIGNATURE
  }

  function SignedPadding(v: Version, padding: seq<byte>): seq<byte> {
    if v.RequiresPointDataStartSignature() && !EndsWithSignature(padding)
    then padding + POINT_DATA_START_SIGNATURE
    else padding
  }

  /** Of a list, the records that must or need not be extended, in order. Every record may be
      extended when `all` holds; otherwise only the large ones are. */
  function Select(vs: seq<Vlr>, all: bool, extended: bool): seq<Vlr> {
    if vs == [] then []
    else
      var rest := Select(vs[..|vs| - 1], all, extended);
      var last := vs[|vs| - 1];
      if (all || last.HasLargeData()) == extended then rest + [last] else rest
  }

  /** The two record lists of the header: demoted EVLRs come before the regular records. */
  function RegularRecords(b: Builder): seq<Vlr> {
    Select(b.evlrs, b.version.Supports(Evlrs), false) + Select(b.vlrs, false, false)
  }

  function ExtendedRecords(b: Builder): seq<Vlr> {
    Select(b.evlrs, b.version.Supports(Evlrs), true) + Select(b.vlrs, false, true)
  }

  /** The first feature or format the builder's version does not support. */
  function UnsupportedUse(b: Builder): Option<Error> {
    if b.fileSourceId != 0 && !b.version.Supports(FileSourceId) then Some(UnsupportedFeature)
    else if b.hasSyntheticReturnNumbers && !b.version.Supports(SyntheticReturnNumbers) then Some(UnsupportedFeature)
    else if b.gpsStandard && !b.version.Supports(GpsStandardTime) then Some(UnsupportedFeature)
    else if !SupportsPointFormat(b.version, b.pointFormat) then Some(UnsupportedFormat)
    else None
  }

  function HeaderOf(b: Builder): Header {
    Header(
      b.bounds, b.date, ExtendedRecords(b), b.fileSourceId, b.generatingSoftware, b.gpsStandard, b.guid,
      b.hasSyntheticReturnNumbers, b.hasWktCrs || b.pointFormat.isExtended, b.numberOfPoints, b.byReturn, b.padding,
      b.pointFormat, b.pointPadding, None, b.systemIdentifier, b.transforms, b.version,
      SignedPadding(b.version, b.vlrPadding), RegularRecords(b))
  }

  function IntoHeader(b: Builder): Result<Header> {
    var unsupported := UnsupportedUse(b);
    if unsupported.Some? then Err(unsupported.value)
    else if ExtendedRecords(b) != [] && !b.version.Supports(Evlrs) then Err(UnsupportedFeature)
    else if ExtendedRecords(b) == [] && b.pointPadding != [] then Err(PointPaddingNotAllowed)
    else Ok(HeaderOf(b))
  }

  function FromHeader(h: Header): Builder {
    Builder(
      h.date, h.fileSourceId, h.generatingSoftware, h.gpsStandard, h.guid, h.hasSyntheticReturnNumbers, h.hasWktCrs,
      h.padding, h.pointFormat, h.pointPadding, h.systemIdentifier, h.transforms, h.version, h.vlrPadding,
      h.vlrs, h.evlrs, h.byReturn, h.numberOfPoints, h.bounds)
  }

  /** One of the two loops of `into_header`: every record is pushed onto one of two growing vectors. */
  method PushRecords(vs: seq<Vlr>, all: bool, regular: seq<Vlr>, extended: seq<Vlr>)
    returns (vlrs: seq<Vlr>, evlrs: seq<Vlr>)
    ensures vlrs == regular + Select(vs, all, false)
    ensures evlrs == extended + Select(vs, all, true)
  {
    vlrs, evlrs := regular, extended;
    for i := 0 to |vs|
      invariant vlrs == regular + Select(vs[..i], all, false)
      invariant evlrs == extended + Select(vs[..i], all, true)
    {
      assert vs[..i + 1][..i] == vs[..i];
      if all || vs[i].HasLargeData() {
        evlrs := evlrs + [vs[i]];
      } else {
        vlrs := vlrs + [vs[i]];
      }
    }
    assert vs[..|vs|] == vs;
  }

  /** The checks of `into_header`, in their order. */
  method BuildHeader(b: Builder) returns (r: Result<Header>)
    ensures r == IntoHeader(b)
  {
    hide Select, SupportsPointFormat;
    var vlrPadding := b.vlrPadding;
    var n := |vlrPadding|;
    if b.version.RequiresPointDataStartSignature() && (n < 2 || vlrPadding[n - 2..] != POINT_DATA_START_SIGNATURE) {
      vlrPadding := vlrPadding + POINT_DATA_START_SIGNATURE;
    }
    if b.fileSourceId != 0 && !b.version.Supports(FileSourceId) {
      return Err(UnsupportedFeature);
    }
    if b.hasSyntheticReturnNumbers && !b.version.Supports(SyntheticReturnNumbers) {
      return Err(UnsupportedFeature);
    }
    if b.gpsStandard && !b.version.Supports(GpsStandardTime) {
      return Err(UnsupportedFeature);
    }
    if !SupportsPointFormat(b.version, b.pointFormat) {
      return Err(UnsupportedFormat);
    }
    var vlrs, evlrs := PushRecords(b.evlrs, b.version.Supports(Evlrs), [], []);
    vlrs, evlrs := PushRecords(b.vlrs, false, vlrs, evlrs);
    assert vlrs == RegularRecords(b) && evlrs == ExtendedRecords(b);
    if evlrs != [] {
      if !b.version.Supports(Evlrs) {
        return Err(UnsupportedFeature);
      }
    } else if b.pointPadding != [] {
      return Err(PointPaddingNotAllowed);
    }
    r := Ok(Header(
      b.bounds, b.date, evlrs, b.fileSourceId, b.generatingSoftware, b.gpsStandard, b.guid,
      b.hasSyntheticReturnNumbers, b.hasWktCrs || b.pointFormat.isExtended, b.numberOfPoints, b.byReturn, b.padding,
      b.pointFormat, b.pointPadding, None, b.systemIdentifier, b.transforms, b.version, vlrPadding, vlrs));
  }

  /** What every header satisfies that was built from a builder, and still after editing its CRS records. */
  predicate Sound(h: Header) {
    && h.version.major == 1 && h.version.minor <= 4
    && UnsupportedUse(FromHeader(h)).None?
    && (forall v | v in h.vlrs :: !v.HasLargeData())
    && (h.evlrs != [] ==> h.version.Supports(Evlrs))
    && (h.version.RequiresPointDataStartSignature() ==> EndsWithSignature(h.vlrPadding))
  }

  /** What every header satisfies that was just built. */
  predicate Normalised(h: Header) {
    && Sound(h)
    && (h.pointPadding != [] ==> h.evlrs != [])
    && (h.pointFormat.isExtended ==> h.hasWktCrs)
  }

  lemma {:induction false} SelectPartitions(vs: seq<Vlr>, all: bool)
    ensures multiset(Select(vs, all, true)) + multiset(Select(vs, all, false)) == multiset(vs)
  {
    if vs != [] {
      var n := |vs| - 1;
      SelectPartitions(vs[..n], all);
      assert vs == vs[..n] + [vs[n]];
      assert multiset(vs) == multiset(vs[..n]) + multiset{vs[n]};
    }
  }

  lemma {:induction false} SelectedAreSmall(vs: seq<Vlr>, all: bool)
    ensures forall r | r in Select(vs, all, false) :: !all && !r.HasLargeData()
  {
    if vs != [] {
      SelectedAreSmall(vs[..|vs| - 1], all);
    }
  }

  lemma {:induction false} SelectAll(vs: seq<Vlr>, all: bool, extended: bool)
    requires forall r | r in vs :: (all || r.HasLargeData()) == extended
    ensures Select(vs, all, extended) == vs && Select(vs, all, !extended) == []
  {
    if vs != [] {
      var n := |vs| - 1;
      assert vs == vs[..n] + [vs[n]];
      assert forall r | r in vs[..n] :: r in vs;
      SelectAll(vs[..n], all, extended);
    }
  }

  /** Normalising neither drops nor invents a record. It changes nothing else than the WKT bit, which
      extended formats force, and the padding after the records, which a start signature may follow. */
  lemma IntoHeaderConservesRecords(b: Builder)
    requires IntoHeader(b).Ok?
    ensures var h := IntoHeader(b).value;
            && multiset(h.vlrs) + multiset(h.evlrs) == multiset(b.vlrs) + multiset(b.evlrs)
            && FromHeader(h) == b.(vlrs := h.vlrs, evlrs := h.evlrs, vlrPadding := h.vlrPadding,
                                   hasWktCrs := b.hasWktCrs || b.pointFormat.isExtended)
            && h.startOfFirstEvlr == None
            && var padding, n := b.vlrPadding, |b.vlrPadding|;
               h.vlrPadding == if b.version == Version(1, 0)
                                  && !(n >= 2 && padding[n - 2] == 0xCC && padding[n - 1] == 0xDD)
                               then padding + [0xCC, 0xDD] else padding
  {
    SelectPartitions(b.evlrs, b.version.Supports(Evlrs));
    SelectPartitions(b.vlrs, false);
    SignedPaddingIs(b.version, b.vlrPadding);
  }

  lemma SignedPaddingIs(v: Version, padding: seq<byte>)
    ensures var n := |padding|;
            SignedPadding(v, padding)
            == if v == Version(1, 0) && !(n >= 2 && padding[n - 2] == 0xCC && padding[n - 1] == 0xDD)
               then padding + [0xCC, 0xDD] else padding
  {
    var n := |padding|;
    if n >= 2 {
      assert padding[n - 2..] == [padding[n - 2], padding[n - 1]];
    }
  }

  function IfSize(v: Vlr, large: bool): seq<Vlr> {
    if (|v.data| > 65535) == large then [v] else []
  }

  /** The records of a list whose data have more than 65535 bytes, or the others, in order. */
  function OfSize(vs: seq<Vlr>, large: bool): seq<Vlr> {
    if vs == [] then [] else IfSize(vs[0], large) + OfSize(vs[1..], large)
  }

  lemma {:induction false} OfSizeAppends(vs: seq<Vlr>, ws: seq<Vlr>, large: bool)
    ensures OfSize(vs + ws, large) == OfSize(vs, large) + OfSize(ws, large)
  {
    hide IfSize;
    if vs == [] {
      assert vs + ws == ws;
    } else {
      var first, mid, last := IfSize(vs[0], large), OfSize(vs[1..], large), OfSize(ws, large);
      OfSizeAppends(vs[1..], ws, large);
      assert (vs + ws)[1..] == vs[1..] + ws && (vs + ws)[0] == vs[0];
      assert first + (mid + last) == (first + mid) + last;
    }
  }

  lemma {:induction false} SelectIsBySize(vs: seq<Vlr>, extended: bool)
    ensures Select(vs, false, extended) == OfSize(vs, extended)
  {
    if vs != [] {
      var n := |vs| - 1;
      SelectIsBySize(vs[..n], extended);
      assert vs == vs[..n] + [vs[n]];
      OfSizeAppends(vs[..n], [vs[n]], extended);
      assert [vs[n]][1..] == [];
    }
  }

  lemma {:induction false} NoneIsLarge(vs: seq<Vlr>)
    requires OfSize(vs, true) == []
    ensures OfSize(vs, false) == vs
  {
    if vs != [] {
      NoneIsLarge(vs[1..]);
      assert vs == [vs[0]] + vs[1..];
    }
  }

  /** Where each record goes, and in which order. At 1.4 the EVLRs come first among the extended records, and the large
      regular ones follow them. Before, the EVLRs come first among the regular records, and none is large. */
  lemma IntoHeaderOrdersRecords(b: Builder)
    requires IntoHeader(b).Ok?
    ensures b.version.major == 1 && b.version.minor <= 4
    ensures var h := IntoHeader(b).value;
            if b.version.minor == 4
            then h.evlrs == b.evlrs + OfSize(b.vlrs, true) && h.vlrs == OfSize(b.vlrs, false)
            else h.evlrs == [] && h.vlrs == b.evlrs + b.vlrs && OfSize(b.evlrs + b.vlrs, true) == []
  {
    hide Select, OfSize;
    SelectIsBySize(b.vlrs, true);
    SelectIsBySize(b.vlrs, false);
    if b.version.minor == 4 {
      SelectAll(b.evlrs, true, true);
    } else {
      SelectIsBySize(b.evlrs, true);
      SelectIsBySize(b.evlrs, false);
      NoneIsLarge(b.evlrs);
      NoneIsLarge(b.vlrs);
      OfSizeAppends(b.evlrs, b.vlrs, true);
    }
  }

  /** Normalising establishes every header invariant. */
  lemma IntoHeaderNormalises(b: Builder)
    requires IntoHeader(b).Ok?
    ensures Normalised(IntoHeader(b).value)
  {
    hide Select;
    SelectedAreSmall(b.evlrs, b.version.Supports(Evlrs));
    SelectedAreSmall(b.vlrs, false);
    var p := b.vlrPadding + POINT_DATA_START_SIGNATURE;
    assert p[|p| - 2..] == POINT_DATA_START_SIGNATURE;
  }

  /** A header is normalised exactly when turning it back into a builder and building again is the
      identity up to the recorded start of the EVLRs. */
  lemma NormalisedIffIdempotent(h: Header)
    ensures IntoHeader(FromHeader(h)) == Ok(h.(startOfFirstEvlr := None)) <==> Normalised(h)
  {
    var b := FromHeader(h);
    if IntoHeader(b) == Ok(h.(startOfFirstEvlr := None)) {
      IntoHeaderNormalises(b);
      assert FromHeader(h.(startOfFirstEvlr := None)) == b;
    }
    if Normalised(h) {
      SelectAll(h.vlrs, false, false);
      SelectAll(h.evlrs, h.version.Supports(Evlrs), true);
      assert ExtendedRecords(b) == h.evlrs;
      assert RegularRecords(b) == h.vlrs;
    }
  }

  // Versions

  predicate Accepts(b: Builder, minor: u8) {
    IntoHeader(b.(version := b.version.(minor := minor))).Ok?
  }

  predicate AnyLarge(vs: seq<Vlr>) {
    exists v | v in vs :: v.HasLargeData()
  }

  function Max(a: nat, b: nat): nat {
    if a < b then b else a
  }

  /** The minor version that the format of a builder was introduced with. */
  function NeededByFormat(f: Format): nat {
    if f.isExtended || f.hasNir then 4 else if f.hasWaveform then 3 else if f.hasColor then 2 else 0
  }

  /** The minor version that the latest feature of a builder was introduced with. */
  function NeededMinor(b: Builder): nat {
    Max(NeededByFormat(b.pointFormat),
        if AnyLarge(b.vlrs) || AnyLarge(b.evlrs) || b.pointPadding != [] then 4
        else if b.hasSyntheticReturnNumbers then 3
        else if b.gpsStandard then 2
        else if b.fileSourceId != 0 then 1
        else 0)
  }

  /** Point padding has an EVLR behind it. */
  predicate PaddingIsAllowed(b: Builder) {
    b.pointPadding != [] ==> b.evlrs != [] || AnyLarge(b.vlrs)
  }

  lemma {:induction false} NothingSelected(vs: seq<Vlr>, all: bool)
    ensures Select(vs, all, true) == [] <==> if all then vs == [] else !AnyLarge(vs)
  {
    if vs != [] {
      var n := |vs| - 1;
      NothingSelected(vs[..n], all);
      assert vs == vs[..n] + [vs[n]];
      assert vs[n] in vs && forall v | v in vs[..n] :: v in vs;
    }
  }

  /** A minor version accepts a builder exactly when it is not older than the latest feature used,
      and point padding is allowed. */
  lemma AcceptsFromNeededMinorOn(b: Builder, minor: u8)
    requires b.version.major == 1 && minor <= 4
    ensures Accepts(b, minor) <==> NeededMinor(b) <= minor && PaddingIsAllowed(b)
  {
    hide Select;
    NothingSelected(b.evlrs, minor == 4);
    NothingSelected(b.vlrs, false);
  }

  /** Acceptance is upward closed: a builder that works at one minor version works at every later one. */
  lemma AcceptanceIsUpwardClosed(b: Builder, lower: u8, upper: u8)
    requires b.version.major == 1 && lower <= upper <= 4 && Accepts(b, lower)
    ensures Accepts(b, upper)
  {
    AcceptsFromNeededMinorOn(b, lower);
    AcceptsFromNeededMinorOn(b, upper);
  }

  /** The least minor version from `minor` on that accepts. */
  function LeastAccepting(b: Builder, minor: nat): Option<Version>
    decreases 5 - minor
  {
    if minor > 4 then None
    else if Accepts(b, minor) then Some(Version(1, minor))
    else LeastAccepting(b, minor + 1)
  }

  function MinimumSupportedVersion(b: Builder): Option<Version> {
    LeastAccepting(b, 0)
  }

  method FindMinimumSupportedVersion(b: Builder) returns (r: Option<Version>)
    ensures r == MinimumSupportedVersion(b)
    ensures r.None? <==> forall m: u8 | m <= 4 :: !Accepts(b, m)
    ensures r.Some? ==> r.value.major == 1 && r.value.minor <= 4 && Accepts(b, r.value.minor)
                        && forall m: u8 | m < r.value.minor :: !Accepts(b, m)
  {
    for minor := 0 to 5
      invariant LeastAccepting(b, 0) == LeastAccepting(b, minor)
      invariant forall m: u8 | m < minor :: !Accepts(b, m)
    {
      var candidate := b.(version := b.version.(minor := minor));
      var built := BuildHeader(candidate);
      if built.Ok? {
        return Some(Version(1, minor));
      }
    }
    return None;
  }

  /** The upgrade that reading applies to a builder whose version is too old for its features. */
  function Upgraded(b: Builder): Builder {
    match MinimumSupportedVersion(b)
    case Some(v) => if v.AtMost(b.version) then b else b.(version := v)
    case None => b
  }

  lemma {:induction false} LeastAcceptingIsLeast(b: Builder, minor: nat)
    requires minor <= 5
    ensures LeastAccepting(b, minor).None? <==> forall m: u8 | minor <= m <= 4 :: !Accepts(b, m)
    ensures LeastAccepting(b, minor).Some? ==>
              var v := LeastAccepting(b, minor).value;
              && v.major == 1 && minor <= v.minor <= 4 && Accepts(b, v.minor)
              && forall m: u8 | minor <= m < v.minor :: !Accepts(b, m)
    decreases 5 - minor
  {
    hide Accepts;
    if minor <= 4 && !Accepts(b, minor) {
      LeastAcceptingIsLeast(b, minor + 1);
    }
  }

  /** The minimum supported version is the one the latest feature needs, if any version is supported. */
  lemma MinimumIsNeeded(b: Builder)
    requires b.version.major == 1
    ensures MinimumSupportedVersion(b) == if PaddingIsAllowed(b) then Some(Version(1, NeededMinor(b))) else None
  {
    hide Accepts, NeededMinor, PaddingIsAllowed;
    NeededMinorIsKnown(b);
    LeastAcceptingIsLeast(b, 0);
    forall m: u8 | m <= 4 ensures Accepts(b, m) <==> NeededMinor(b) <= m && PaddingIsAllowed(b) {
      AcceptsFromNeededMinorOn(b, m);
    }
    if PaddingIsAllowed(b) {
      assert Accepts(b, NeededMinor(b));
    }
  }

  lemma NeededMinorIsKnown(b: Builder)
    ensures NeededMinor(b) <= 4
  {
  }

  /** For versions 1.0 to 1.4, building after the upgrade fails only if no version accepts at all;
      and a version that already accepts is kept. */
  lemma UpgradeSucceedsIfAnyVersionDoes(b: Builder)
    requires b.version.major == 1 && b.version.minor <= 4
    ensures IntoHeader(Upgraded(b)).Ok? <==> exists m: u8 :: m <= 4 && Accepts(b, m)
    ensures IntoHeader(b).Ok? ==> Upgraded(b) == b
  {
    LeastAcceptingIsLeast(b, 0);
    assert b.(version := b.version.(minor := b.version.minor)) == b;
    var least := MinimumSupportedVersion(b);
    if least.Some? && least.value.AtMost(b.version) {
      AcceptanceIsUpwardClosed(b, least.value.minor, b.version.minor);
    }
    if least.None? && IntoHeader(b).Ok? {
      assert Accepts(b, b.version.minor);
    }
  }

  /** The upgrade goes to the least version that has every feature used, and no further. */
  lemma UpgradeGoesToNeeded(b: Builder)
    requires b.version.major == 1 && b.version.minor <= 4
    ensures PaddingIsAllowed(b) ==> Upgraded(b) == b.(version := Version(1, Max(b.version.minor, NeededMinor(b))))
    ensures !PaddingIsAllowed(b) ==> Upgraded(b) == b
  {
    hide NeededMinor, PaddingIsAllowed, LeastAccepting;
    NeededMinorIsKnown(b);
    MinimumIsNeeded(b);
  }

  /** What the features of a builder need does not change by building it. */
  lemma BuildingKeepsNeeds(b: Builder)
    requires IntoHeader(b).Ok?
    ensures NeededMinor(FromHeader(IntoHeader(b).value)) == NeededMinor(b)
  {
    hide IntoHeader, EndsWithSignature;
    IntoHeaderConservesRecords(b);
    var h := IntoHeader(b).value;
    assert forall v :: v in multiset(h.vlrs) + multiset(h.evlrs) <==> v in multiset(b.vlrs) + multiset(b.evlrs);
    assert forall v :: v in h.vlrs || v in h.evlrs <==> v in b.vlrs || v in b.evlrs by {
      forall v: Vlr ensures v in h.vlrs || v in h.evlrs <==> v in multiset(h.vlrs) + multiset(h.evlrs) {
      }
      forall v: Vlr ensures v in b.vlrs || v in b.evlrs <==> v in multiset(b.vlrs) + multiset(b.evlrs) {
      }
    }
  }

  /** Only versions 1.0 to 1.4 can be built, with or without the upgrade. */
  lemma OnlyKnownVersionsBuild(b: Builder)
    requires IntoHeader(Upgraded(b)).Ok?
    ensures b.version.major == 1 && b.version.minor <= 4 && PaddingIsAllowed(b)
  {
    LeastAcceptingIsLeast(b, 0);
    if b.version.major == 1 && b.version.minor <= 4 {
      UpgradeGoesToNeeded(b);
      var u := Upgraded(b);
      assert u.(version := u.version.(minor := u.version.minor)) == u;
      AcceptsFromNeededMinorOn(u, u.version.minor);
    }
  }

  /** Building after the upgrade gives a header of the version that was there, or the one its features need. */
  lemma UpgradedVersion(b: Builder)
    requires IntoHeader(Upgraded(b)).Ok?
    ensures b.version.major == 1 && b.version.minor <= 4
    ensures var h := IntoHeader(Upgraded(b)).value;
            h.version == Version(1, Max(b.version.minor, NeededMinor(FromHeader(h))))
  {
    hide IntoHeader, NeededMinor, PaddingIsAllowed;
    OnlyKnownVersionsBuild(b);
    UpgradeGoesToNeeded(b);
    BuildingKeepsNeeds(Upgraded(b));
    BuildingKeepsVersion(Upgraded(b));
    NeedsIgnoreVersion(b, Upgraded(b).version);
  }

  lemma BuildingKeepsVersion(b: Builder)
    requires IntoHeader(b).Ok?
    ensures IntoHeader(b).value.version == b.version
  {
  }

  lemma NeedsIgnoreVersion(b: Builder, v: Version)
    ensures NeededMinor(b.(version := v)) == NeededMinor(b)
  {
  }

  /** Why a builder is refused: the first of the features, the format, the extended records and the point padding
      that its version does not have. */
  lemma RefusalReason(b: Builder)
    requires b.version.major == 1 && b.version.minor <= 4 && IntoHeader(b).Err?
    ensures var m := b.version.minor;
            IntoHeader(b).error
            == if (b.fileSourceId != 0 && m < 1) || (b.hasSyntheticReturnNumbers && m < 3) || (b.gpsStandard && m < 2)
               then UnsupportedFeature
               else if m < NeededByFormat(b.pointFormat) then UnsupportedFormat
               else if m < 4 && (AnyLarge(b.vlrs) || AnyLarge(b.evlrs)) then UnsupportedFeature
               else PointPaddingNotAllowed
  {
    hide Select;
    NothingSelected(b.evlrs, b.version.minor == 4);
    NothingSelected(b.vlrs, false);
  }

  // Foreign headers

  /** The number of points of any header: the legacy count, or the 64-bit one if that is zero. */
  lemma PointCountOfRaw(raw: RawHeaders.RawHeader)
    ensures var n, large := raw.layout.numberOfPointRecords, raw.largeFile;
            && PointsFromRaw(raw) == (if n > 0 then n else if large.Some? then large.value.numberOfPointRecords else 0)
            && raw.NumberOfPointRecords() == PointsFromRaw(raw)
  {
  }

  /** The three bits of the global encoding that are read, whatever the others are. */
  lemma EncodingBitsOfRaw(fp: Fp, raw: RawHeaders.RawHeader, gps: nat, other: nat, synthetic: nat, wkt: nat, rest: nat)
    requires gps <= 1 && other <= 3 && synthetic <= 1 && wkt <= 1
    requires raw.identity.globalEncoding == gps + 2 * other + 8 * synthetic + 16 * wkt + 32 * rest
    requires NewBuilder(fp, raw).Ok?
    ensures var b := NewBuilder(fp, raw).value;
            b.gpsStandard == (gps == 1) && b.hasSyntheticReturnNumbers == (synthetic == 1) && b.hasWktCrs == (wkt == 1)
  {
    hide LasString, HistogramFromRaw, PointsFromRaw, FormatFromRaw, BoundsFromRaw, DateFromRaw;
    var g := raw.identity.globalEncoding;
    assert g / 8 == synthetic + 2 * (wkt + 2 * rest);
    assert g / 16 == wkt + 2 * rest;
  }

  /** Days of the year in the Gregorian calendar. */
  lemma DaysExist(year: i32, day: u16)
    ensures ValidDate(Date(year, day)) ==> 1 <= day <= 366
    ensures 1 <= day <= 365 ==> ValidDate(Date(year, day))
    ensures year % 4 != 0 ==> !ValidDate(Date(year, 366))
    ensures year % 4 == 0 && year % 100 != 0 ==> ValidDate(Date(year, 366))
    ensures year % 100 == 0 && year % 400 != 0 ==> !ValidDate(Date(year, 366))
    ensures year % 400 == 0 ==> ValidDate(Date(year, 366))
  {
  }
}
