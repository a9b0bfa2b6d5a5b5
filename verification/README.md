# A verified model of las-rs

las-rs reads and writes LAS point cloud files (ASPRS LAS 1.4 R15). This project models it as a file-format engine
in Dafny: a writer that lays a file out over a seekable byte stream and rewrites its header on closing, a reader that
finds everything again, and below them the codecs for points, records and headers, the header normaliser, the
statistics of a run, and the coordinate arithmetic. Two smaller parts are modelled beside it: the COPC hierarchy and
the editing and scanning of coordinate reference systems.

`dafny verify dfyconfig.toml` checks the whole project.

## How the model is built

- Codecs, conversions and normalisation are functions over byte sequences, with lemmas about them. What the source
  changes step by step is imperative: the classes `Stream`, `HeaderObject`, `Writer`, `PointReader` and
  `EntryIterator`, and the loops that fill counts, push records, search versions, scan digits and collect pages.
  Every method is proved against a function of its inputs or of the old state.
- Floating point is a record `Fp` of arbitrary functions: the roundings to `f64` and `f32`, and the meaning of the
  64-bit words in a file. A theorem holds for every such arithmetic, or says what it needs: an order-preserving
  rounding (`MonotoneRounding`, true of IEEE 754), an `f32` rounding with a relative error of at most a thousandth
  on the range of scan angles (`FaithfulF32`, true of IEEE 754), or exact reals (`ExactRounding`).
  Scales, offsets, GPS times and waveform fields stay the words the file holds.
- Strings are the bytes of their UTF-8 encoding; reading replaces what is not UTF-8, as `from_utf8_lossy` does. That
  the strings of a header are UTF-8 is part of `Writable`, since the type of strings guarantees it.
- Flag bytes are 8-bit vectors. Other integers are unbounded with the width of each Rust type as a subset type;
  narrowing, wrapping and saturation are written out. Classes are held as their code.
- Errors are values of `Result`. A slice outside a COPC payload panics in every build and gives `None`.
- Arithmetic overflow panics in builds with overflow checks and wraps in the others. Point counts (`Successor`), octree
  levels (`Child`, `Parent`) and the computed start of the EVLRs follow the wrapping builds. The digit scan stops with
  `Overflow` as the checked builds do, and the theorems about it show that no overflow happens. Record lengths,
  unsigned differences and stream positions are kept from overflowing by preconditions, so both builds agree. Shifts
  and casts drop high bits in both builds, and so they do here.
- A stream is an in-memory cursor: writing behind the end fills the gap with zeros, a failed read leaves it at the end.

## Main results

- **Writer** (`Writers`). Over every run of operations that have all succeeded, the open stream holds the encoded
  header, records and padding followed by exactly one record for each point; closing appends padding and EVLRs and
  replaces only the header block, since both encodings have the same length; a closed writer refuses everything and
  changes no byte. The invariant `Writer.Valid` carries this for every header, format and point. It also says that,
  until a close has failed, the stream stands where the count says if and only if no point has failed, and short of it
  otherwise. `Writer.AppendPoint` says which bytes a failed point left, `Writer.Close` and `Writer.CloseTwice` what a
  failed close did.
- **Reader** (`Readers`). Any sequence of single reads, chunked reads and seeks on a complete file returns what a list
  of points with a cursor returns.
- **Round trip** (`RoundTrip`, `RunSuccess`). Writing and reading back succeeds exactly when every point and both
  headers can be encoded, which `RunSucceedsIff` turns into conditions a caller can test beforehand; it gives the
  header described by `HeaderBack`, the stored form of every point in order, and then nothing.
  `HeaderSurvivesIff` and `PointReadsBack` say what that leaves of the original, field by field.
- **Byte identity** (`PointCodec`, `PointRewrite`, `FileCopies`). When decoding and encoding are inverse, in both
  directions, when a record that is decoded to a point and encoded again keeps its bytes, and when copying all points
  of a file through reader and writer reproduces its point data: an exact condition for every format.
- **Layout** (`Layouts`). Where every field of the header block, the records, the point data and the COPC entries
  stands, byte by byte and with literal offsets, independently of the codecs that are proved inverse above.
- **Distance** (`Quantisation`). How far a point that is read may be from the one that was written: half a scale for
  coordinates, one step towards zero for scan angles, and in legacy formats the nearest degree from there.
- **Statistics, bounds and the dual encoding of counts** (`Statistics`, `BoundingBoxes`, `WrittenBounds`,
  `Histograms`). The written box is tight around the run, encloses every point that is read, and can be written under
  an exact condition.
- **Normalisation and versions** (`Builders`). What `into_header` conserves and establishes, in which order it leaves the
  records, when it is idempotent, why it refuses, that acceptance by a version is upward closed, and to which version
  a file is upgraded when it is read.
- **COPC** (`CopcHierarchy`). Octree keys and paths are in bijection; a payload is read as exactly the hierarchy it
  holds; the iterator refines a flat map.
- **CRS** (`CrsRecords`, `WktScan`). Setting and removing records are inverse, stated on user ids and record ids; the
  backwards scan inverts decimal printing, and its result is given for every text.
- **UTF-8** (`Utf8`). Valid texts are the encodings of Unicode scalar values, and what is replaced is maximal.

## Where the natural claim is false

Each of these is kept as the code has it, with the exact condition under which the claim holds, or, where a failure
leaves something behind, with what it leaves.

- Points are read as waveform then NIR but written as NIR then waveform (src/raw/point.rs:394-403, 458-463). A format
  with both loses data unless all 31 bytes are equal: `PointCodec.EncodeThenDecode`, `PointCodec.DecodeThenEncode`,
  and the example `PointCodec.Format10CanLoseData`.
- NIR 0 is read as absent (src/raw/point.rs:400), and a writer refuses a point without the attributes of its format
  (src/writer/mod.rs:257), so a record with NIR 0 cannot be copied at all: `PointRewrite.ReadPointMatchesIff`,
  `FileCopies.CopyReproducesPointsIff`.
- Reading and rewriting a record changes class 28 to 12 in the two-byte layout, because one mask has four bits and the
  other five (src/raw/point.rs:610, 747), and class 12 to 1 in the three-byte layout, where the overlap flag is sampled
  before the class is cleared (src/point/mod.rs:116-117): `PointRewrite.ExactRewriteIsIdentical`.
- Two flag bytes can be widened to three without loss only if no mark is set and the class is neither 12 nor 28, though
  the documentation says it is always possible (src/raw/point.rs:323-325): `Points.WideningKeepsFlagsIff`.
- At version 1.4 the per-return histogram is lost in part as soon as legacy and other entries are mixed, since the
  reader prefers the legacy counts (src/header/builder.rs:80-96): `Histograms.HistogramSurvivesIff`,
  `Histograms.MixedHistogramIsLost`.
- `Header::new` reads one EVLR, whatever number is announced (src/header/mod.rs:175-178): `RoundTrip.HeaderSurvivesIff`.
- The reader seeks from the start of the stream (src/header/mod.rs:146, 175, 181). Of a file that starts elsewhere the
  EVLR is found, as its position was recorded the same way, but the points are looked for too early, and as many stray
  bytes as the file is displaced by are put before the point padding: `RoundTrip.FileHeaderReadsBackAnywhere`,
  `RoundTrip.ReaderIsAtPointsIffFileIsAtStart`.
- A point is counted before it is known to be storable (src/writer/las.rs:18-21), and one with unstorable flags leaves
  14 bytes behind: `Writers.Writer.AppendPoint`, and the example `RunSuccess.EighthReturnIsNotStored`.
- A close that cannot rewrite the header leaves the stream at the start and the writer open (src/writer/mod.rs:213-225).
  Closing again, as dropping the writer does (src/writer/mod.rs:351-357), fails for the same reason after writing padding
  and EVLRs over the start of the file: `Writers.Writer.CloseTwice`.
- A run whose every point can be stored may still fail to close, because its box is rounded outwards:
  `BoundingBoxes.StorableButNotBoxedIff` says for which coordinates, `RunSuccess.FinalHeaderEncodesIff` for which runs,
  and `BoundingBoxes.BoxCanOverflowWhereItsPointsDoNot` gives an example. With a negative scale the box is rounded
  inwards, and fails only if all points lie outside on one side.
- The header size is right only up to version 1.4 (src/version.rs:58-66): `RawHeaders.EncodedHeaderLength`.
- A COPC child key wraps when a coordinate leaves 32 bits (src/copc.rs:140): `CopcHierarchy.ParentUndoesChildIff`.

## Model

| member | source | states |
|---|---|---|
| `Transforms.RoundedQuotientsAreOrdered` | src/transform.rs:39-64 | for any order-preserving rounding, floor at the low end and ceiling at the high end enclose the nearest rounding of everything between |
| `Transforms.DirectIsMonotone` | src/transform.rs:24-26 | a positive scale keeps the order of stored integers |
| `Transforms.ExactInverseOfDirect` | src/transform.rs:24-64 | without rounding, every stored integer survives the trip through its coordinate |
| `BoundingBoxes.GrowKeepsExtremes` | src/bounds.rs:26-45 | growing keeps each side the exact minimum or maximum of all values so far, from the empty box on |
| `BoundingBoxes.SnappedSidesCoverQuantised` | src/bounds.rs:71-94 | if both sides can be snapped, every coordinate between can be stored and is read back inside the snapped sides |
| `BoundingBoxes.SnappedSideIsTight` | src/bounds.rs:71-94 | in exact arithmetic a snapped side is on the grid, outside the extreme and less than one scale away |
| `Transforms.InverseSucceedsIff` | src/transform.rs:39-64 | a coordinate can be stored if and only if its quotient lies strictly within half a unit of the 32-bit integers, or is the offset itself with a zero scale |
| `Transforms.InverseIsNearest` | src/transform.rs:39-64 | a stored integer is nearest to the quotient, and a tie goes away from zero |
| `BoundingBoxes.SnappedSidesAreTight` | src/bounds.rs:71-94 | in exact arithmetic both sides of an extent enclose all its values, lie on the grid and are each within one scale of a value |
| `BoundingBoxes.SidesSnapIff` | src/bounds.rs:71-94 | for any order-preserving rounding and any scale, both sides of an extent can be snapped if and only if the quotients of its coordinates have the room `BoxFits` asks for |
| `BoundingBoxes.EmptyBoxStaysEmpty` | src/bounds.rs:71-104 | the empty box of a header without points can always be written, as it is |
| `BoundingBoxes.StorableButNotBoxedIff` | src/transform.rs:43-64 | for coordinates that can all be stored, the box fails if and only if some quotient lies outside the 32-bit integers with a positive scale, or all do on one side with a negative one |
| `BoundingBoxes.BoxCanOverflowWhereItsPointsDoNot` | src/transform.rs:43-64 | an example of such a coordinate |
| `Formats.FormatCodesAreInvertible` | src/point/format.rs:92-231 | a byte is the code of the format it stands for if and only if it is 0 to 10 with or without the compression bit; every format with a code is the one its code stands for |
| `Layouts.FormatTable` | src/point/format.rs:92-156 | the attributes and lengths of the eleven formats, as a table |
| `Layouts.CompressedFormats` | src/point/format.rs:8-108 | a code with the highest bit stands for the compressed form of its lowest six bits |
| `PointCodec.EncodedLength` | src/point/format.rs:141-156 | every record of a format has exactly the length of the format |
| `PointCodec.DecodeOfEncoded` | src/raw/point.rs:359-466 | every field but waveform and NIR comes back; these come back recut at the reader's boundary |
| `PointCodec.EncodeThenDecode` | src/raw/point.rs:359-466 | a point shaped for its format is read back as written if and only if NIR is not `Some(0)` and, with both NIR and waveform, all 31 bytes agree |
| `PointCodec.DecodeThenEncode` | src/raw/point.rs:359-466 | every record decodes to a shaped point and is re-encoded to the same bytes if and only if the order of NIR and waveform cannot be seen |
| `PointCodec.CommuteOnlyIfConstant` | src/raw/point.rs:458-463 | two and twenty-nine bytes commute exactly when all are equal |
| `PointCodec.Format10CanLoseData` | src/raw/point.rs:394-403 | a format 10 point that is not read back as written |
| `Points.ThreeByteFlagsRewritten` | src/point/mod.rs:115-223 | three flag bytes survive reading and writing but for class 12, which becomes 1 |
| `Points.TwoByteFlagsRewritten` | src/raw/point.rs:660-758 | two flag bytes survive reading and writing but for class 28, which becomes 12 |
| `Points.FlagsReadBack` | src/point/mod.rs:183-223 | packing and the ten accessors, the class among them, are inverse for every point that can be packed |
| `Points.TwoByteFlagsReadBack` | src/raw/point.rs:660-704 | narrowing to two bytes keeps every accessor, with overlap merged into class 12 |
| `Points.WideningKeepsFlagsIff` | src/raw/point.rs:767-778 | widening keeps the return fields and moves the whole second byte to the third; it keeps all flags if and only if no mark is set and the class is neither 12 nor 28 |
| `Points.FlagBits` | src/raw/point.rs:506-646 | which bits of which byte each accessor reads, in both layouts, as masks |
| `Points.ClearedFlags` | src/raw/point.rs:744-758 | class 12 becomes 1, and three bytes then have the overlap bit |
| `Points.NewPointFields` | src/point/mod.rs:115-143 | what the flags of a raw point become, with overlap as it was before the class was cleared |
| `Points.PackingErrors` | src/point/mod.rs:183-203 | which points cannot be packed into flags, and why |
| `Points.NarrowingErrors` | src/raw/point.rs:660-678 | which three bytes cannot be narrowed to two, and why |
| `PointRewrite.RankSurvives` | src/raw/point.rs:795-826 | each of the 256 scan-angle ranks survives the detour over scaled angles for any `f32` rounding within a thousandth |
| `Quantisation.AngleOfAnyRounding` | src/raw/point.rs:822-826 | whatever the `f32` rounding of the quotient, it is truncated towards zero and saturated |
| `Quantisation.AngleIsTruncated` | src/raw/point.rs:822-826 | an angle is stored as its whole steps of 0.006 degrees towards zero, saturated to 16 bits |
| `Quantisation.RawAngleIsTruncated` | src/point/mod.rs:156-176 | the same for the raw point that a point is stored as |
| `Quantisation.RankIsTruncated` | src/raw/point.rs:804-811 | the same for a rank that is stored in an extended format |
| `Quantisation.RankIsNearest` | src/raw/point.rs:795-802 | in a legacy format the nearest whole degree of eight bits is stored, away from zero in a tie |
| `Quantisation.RereadIsNear` | src/point/mod.rs:115-176 | a point is read back with every coordinate within half a scale and its angle truncated or ranked as above |
| `PointRewrite.RewriteIsIdentical` | src/point/mod.rs:115-223 | for every format, any `f64` arithmetic and any `f32` rounding within a thousandth, a record that is decoded to a point and encoded again keeps its bytes exactly when coordinates, class and scaled angle survive and the order of NIR and waveform cannot be seen |
| `PointRewrite.ExactRewriteIsIdentical` | src/point/mod.rs:115-223 | in exact arithmetic, for every format and non-zero scales: exactly when the class is not 28 (two bytes) or 12 (three bytes) and the order cannot be seen |
| `PointRewrite.LegacyRewriteIsIdentical` | src/raw/point.rs:359-466 | formats 0 to 5 with exact coordinates and any faithful `f32`: rewritten byte for byte if and only if the class is not 28 |
| `PointRewrite.PointReadsBack` | src/point/mod.rs:115-223 | what every written point is read back as: quantised coordinates and angle, overlap merged as the layout requires, waveform and NIR recut, all else unchanged |
| `PointRewrite.ReadPointMatchesIff` | src/point/mod.rs:245-251 | a point that was just read has the attributes its format asks for, so that a writer takes it, if and only if its NIR is not 0 |
| `FileCopies.CopyReproducesPointsIff` | src/writer/mod.rs:253-263 | for every file, reading its points and writing them again under its format and transforms reproduces the point data if and only if every record keeps its bytes and has no NIR of 0 |
| `FileCopies.ExactlyCopyableIff` | src/raw/point.rs:359-466 | in exact arithmetic with non-zero scales such a record is one whose class is not 28 (two bytes) or 12 (three bytes), whose NIR is not 0 and in which the order of NIR and waveform cannot be seen |
| `VariableRecords.FromLasStr` | src/utils.rs:52-65 | copies the string over the front of the buffer in place, or reports its length and changes nothing; in a zeroed buffer it leaves what `LasStr` says |
| `VariableRecords.LasStringStopsAtNul` | src/utils.rs:41-49 | reading stops at the first NUL, whatever follows it |
| `Utf8.LossyKeepsIffText` | src/utils.rs:46-46 | replacing what is not UTF-8 keeps bytes if and only if they are UTF-8, always gives UTF-8 and is idempotent |
| `Utf8.TextIffScalars` | src/utils.rs:46-46 | bytes are UTF-8 if and only if they are the shortest encodings of Unicode scalar values |
| `Utf8.ReplacedChunkIsMaximal` | src/crs.rs:193-193 | where a character stands nothing is replaced, and no beginning of a character is longer than the chunk that is replaced at once |
| `Utf8.ReplacedChunkBeginsCharacter` | src/crs.rs:193-193 | a chunk of several bytes that is replaced at once does begin a character |
| `VariableRecords.LasStringIsText` | src/utils.rs:41-49 | any bytes are read as UTF-8, and as they are if and only if they are UTF-8 without NUL |
| `VariableRecords.LasStringReadsBack` | src/utils.rs:23-65 | a string put in a zeroed buffer is read up to its first NUL, so it survives if and only if it has none |
| `VariableRecords.TrimmedIsSameIffNulFree` | src/vlr.rs:66-73 | a record keeps its strings if and only if neither holds a NUL |
| `VariableRecords.RawVlrReadsBack` | src/raw/vlr.rs:72-114 | a well-formed record, regular or extended, is read back from any place in a stream, and exactly its bytes are consumed |
| `VariableRecords.RawVlrsReadBack` | src/raw/vlr.rs:72-114 | any list of well-formed raw records, regular or extended, is read back, and exactly its bytes are consumed |
| `VariableRecords.VlrReadsBack` | src/vlr.rs:66-122 | the same for records as users see them, with strings cut at their first NUL |
| `VariableRecords.VlrsReadBack` | src/header/mod.rs:126-130 | any list of records is read back in order, consuming exactly the length the header computes for it |
| `VariableRecords.RecordErrors` | src/vlr.rs:85-171 | which records cannot be written, and why |
| `Layouts.RecordLayout` | src/raw/vlr.rs:102-114 | where the fields of a record stand, regular and extended |
| `Layouts.UserRecordLayout` | src/vlr.rs:85-100 | a record as users see it is written with a reserved field of zero and strings filled up with zeros |
| `RawHeaders.RawHeaderReadsBack` | src/raw/header.rs:257-428 | every well-formed raw header of any version and padding is read back in canonical form, and exactly its bytes are consumed |
| `Headers.RawPartsReadBack` | src/raw/header.rs:257-428 | a raw header followed by any list of well-formed raw records is read back part by part without a gap |
| `RawHeaders.EncodedHeaderLength` | src/raw/header.rs:373-428 | the encoded length is declared size plus padding if and only if the version is at most 1.4 |
| `Headers.HeaderBlockLength` | src/header/mod.rs:664-671 | the length of the header block depends on version and padding alone |
| `Layouts.BlockIdentity` | src/raw/header.rs:376-385 | where signature, source id, global encoding, GUID, version, identifiers and date stand in a written header, and what they are |
| `Layouts.BlockOffsets` | src/raw/header.rs:386-428 | where sizes, offsets, number of records, record length, EVLRs and padding stand, and what they are |
| `Layouts.BlockCounts` | src/header/mod.rs:692-774 | at every version the legacy count fields hold what fits 32 bits, and at 1.4 the 64-bit fields hold all |
| `Layouts.BlockExtents` | src/raw/header.rs:389-406 | where format, scales, offsets and the adapted box stand, and what they are |
| `Layouts.FinishedRunCounts` | src/writer/mod.rs:217-220 | the header of a finished run has its number of points in the legacy field whenever that has 32 bits, and in the 64-bit field at 1.4 |
| `Layouts.PointLayout` | src/raw/point.rs:427-448 | where the leading fields of a point record stand, in both layouts |
| `Layouts.AttributeLayout` | src/raw/point.rs:449-464 | where GPS time, colour, NIR and extra bytes stand, and that missing attributes are written as zeros |
| `Layouts.WaveformLayout` | src/raw/point.rs:483-493 | where the fields of a wave packet stand |
| `Layouts.ReadTransforms` | src/header/builder.rs:128-141 | which words of any file are its scales and offsets |
| `Layouts.ReadCoordinates` | src/point/mod.rs:115-120 | for any record, the coordinates are its three leading integers times scale plus offset, rounded after each operation |
| `Headers.PreambleLength` | src/header/mod.rs:617-681 | what is written before the points is exactly as long as `offset_to_point_data` |
| `Builders.PushRecords` | src/header/builder.rs:199-215 | the record loops append, in order, exactly the records that belong to each list |
| `Builders.BuildHeader` | src/header/builder.rs:170-244 | the imperative normaliser computes the function the lemmas below are about, with the first error in the order of the checks |
| `Builders.IntoHeaderConservesRecords` | src/header/builder.rs:170-244 | no record is lost or invented; every other field is kept, but for the WKT bit of extended formats and the bytes CC DD, which are appended to the padding only at 1.0 and only where they are missing |
| `Builders.IntoHeaderOrdersRecords` | src/header/builder.rs:199-215 | at 1.4 the EVLRs and then the large regular records, in order, are extended; before 1.4 the EVLRs and then the regular records, in order, are regular, and none is large |
| `Builders.RefusalReason` | src/header/builder.rs:182-220 | which of feature, format, EVLRs and padding a refusal names |
| `Builders.IntoHeaderNormalises` | src/header/builder.rs:170-244 | no large regular record, EVLRs only where supported, point padding only with EVLRs, signature at 1.0, only supported features and formats |
| `Builders.NormalisedIffIdempotent` | src/header/builder.rs:278-302 | going back to a builder and building again is the identity, up to the start of the EVLRs, if and only if the header is normalised |
| `Builders.AcceptsFromNeededMinorOn` | src/version.rs:116-129 | a minor version accepts a builder if and only if it is at least the one its latest feature needs and point padding has an EVLR behind it |
| `Builders.AcceptanceIsUpwardClosed` | src/feature.rs:76-89 | what one minor version accepts, every later one up to 1.4 accepts |
| `Builders.FindMinimumSupportedVersion` | src/header/builder.rs:255-266 | the search returns the least accepting minor version, or none exactly when none accepts |
| `Builders.LeastAcceptingIsLeast` | src/header/builder.rs:255-266 | the function the search refines is the least accepting minor version from any start |
| `Builders.MinimumIsNeeded` | src/header/builder.rs:255-266 | the minimum is the version the latest feature needs, if point padding is allowed |
| `Builders.UpgradeSucceedsIfAnyVersionDoes` | src/header/mod.rs:183-193 | the upgrade on reading fails only if no version accepts, and leaves an accepted version alone |
| `Builders.UpgradeGoesToNeeded` | src/header/mod.rs:183-192 | the upgrade goes exactly to the version that the latest feature needs, and never down |
| `HeaderFiles.ReadVersion` | src/header/mod.rs:183-193 | the version of what is read from any file is the one it names or the one its features need, and only 1.0 to 1.4 can be read |
| `HeaderFiles.SignatureIsChecked` | src/raw/header.rs:257-262 | a stream without "LASF" is refused |
| `HeaderFiles.FormatIsChecked` | src/header/builder.rs:97-108 | unknown formats and records too short for their format are refused, and otherwise the record length is kept |
| `HeaderFiles.OffsetsAreChecked` | src/header/mod.rs:131-165 | offsets that point back into records or points are refused |
| `HeaderFiles.CompressedTail` | src/header/mod.rs:147-179 | in a compressed file the EVLR is taken from any place, without padding |
| `Builders.EncodingBitsOfRaw` | src/header/builder.rs:121-124 | which bits of the global encoding are read, whatever the others are |
| `Builders.DaysExist` | src/header/builder.rs:110-113 | which days of a year exist |
| `Histograms.FillLegacyCounts` | src/header/mod.rs:709-735 | whatever the order of the hash map, the five counts are filled or an offending entry is reported, exactly as the map decides |
| `Histograms.FillLargeCounts` | src/header/mod.rs:758-774 | the same for the fifteen 64-bit counts |
| `Histograms.HistogramSurvivesIff` | src/header/builder.rs:80-96 | a histogram that can be written is read back unchanged if and only if its entries are positive and, at 1.4, all are legacy entries or none is |
| `Histograms.PointCountSurvives` | src/raw/header.rs:319-355 | the number of points survives the two count fields at every version, by both of the reader's computations |
| `Builders.PointCountOfRaw` | src/raw/header.rs:319-347 | for any header both of the reader's computations give the legacy count, or the 64-bit one if that is zero |
| `Histograms.MixedHistogramIsLost` | src/header/builder.rs:304-317 | a histogram with first and sixth returns that is not read back |
| `Statistics.HistogramCounts` | src/header/mod.rs:239-249 | after clearing and any run, each entry is the number of points of that return, modulo 64 bits, and no other key exists |
| `Statistics.PointCount` | src/header/mod.rs:223-249 | the number of points is the length of the run, modulo 64 bits |
| `Statistics.CountsAddUp` | src/header/mod.rs:239-249 | the histogram plus the points of return 0 add up to the number of points |
| `Statistics.BoundsAreExtent` | src/header/mod.rs:239-249 | the bounds are the exact minimum and maximum of every coordinate of the run |
| `Statistics.OnlyStatisticsChange` | src/header/mod.rs:239-249 | counting points changes no other field |
| `HeaderFiles.BuilderReadsBack` | src/header/builder.rs:77-160 | the raw form of a header is parsed to a builder of that header, up to what the file cannot hold |
| `HeaderFiles.HeaderBackIsNormalised` | src/header/mod.rs:183-193 | what is read back is normalised, with any padding before its EVLR, so the upgrade and the final build leave it as it is |
| `HeaderFiles.HeaderReadsBack` | src/header/mod.rs:116-194 | the whole metadata parse inverts the whole metadata layout, wherever it stands and whatever surrounds it; point padding is what lies between the end of the points, counted from the start of the stream, and the recorded EVLR, and the reader is left at the announced offset |
| `CrsRecords.RemovingDropsExactlyCrs` | src/crs.rs:85-95 | removing drops exactly the records with user id "LASF_Projection" in any case and record id 2112, 34735, 34736 or 34737, keeps the others in order and clears the WKT bit |
| `CrsRecords.SettingSucceedsIff` | src/crs.rs:102-149 | before 1.4 setting fails; from 1.4 on it fails if and only if one of those records is in either list; else it appends a WKT record with the bytes, to the extended list if they are more than 65535 |
| `CrsRecords.FirstWktIsFirst` | src/crs.rs:152-160 | the bytes that are found are those of the first WKT record |
| `CrsRecords.NoWktIsFound` | src/crs.rs:152-160 | without such a record none are found |
| `CrsRecords.SettingAfterRemoving` | src/crs.rs:85-160 | after removing, setting succeeds, the bytes are found in either list, a second setting fails, and removing again restores both lists |
| `CrsRecords.EditingKeepsSound` | src/crs.rs:85-149 | editing keeps every header invariant that writing needs |
| `WktScan.ScanPiece` | src/crs.rs:206-222 | the backwards loop computes the scan function, 16-bit overflow included |
| `WktScan.FindEpsg` | src/crs.rs:192-235 | makes the bytes a text, replacing what is not UTF-8; the loop over its pieces gives the two codes, the error, or the overflow |
| `WktScan.ScanFindsCode` | src/crs.rs:206-222 | for every code of 16 bits, a piece that ends in its decimal and a short tail without digits gives back that code without overflow |
| `WktScan.ScanIs` | src/crs.rs:206-222 | for any bytes: the number of the last digits among the last nine bytes, 0 without digits, overflow beyond five digits or 16 bits |
| `WktScan.EpsgOfPlainText` | src/crs.rs:192-235 | for any text without "VERT": its last number as horizontal code, or the error if there is none |
| `WktScan.EpsgOfSplitText` | src/crs.rs:192-235 | for any text with "VERT": both last numbers; no number before it is an error, none after it is no vertical code |
| `WktScan.HorizontalCodeIsFound` | src/crs.rs:192-235 | bytes whose text, after replacement, has no "VERT" and ends in a code give that horizontal code and no vertical one |
| `WktScan.BothCodesAreFound` | src/crs.rs:192-235 | bytes whose text, after replacement, splits at its first "VERT" into two pieces that end in codes give both |
| `CopcHierarchy.ChildOfGridKey` | src/copc.rs:128-157 | below level 31 a child is the octant of its direction bits, stays in the grid, and its parent is the key it came from |
| `CopcHierarchy.ChildExistsIff` | src/copc.rs:128-132 | directions 0 to 7 are taken and any other is refused |
| `CopcHierarchy.ParentUndoesChildIff` | src/copc.rs:128-157 | over all 32-bit keys with wrapping levels, parent undoes child if and only if no coordinate overflows and the level is not negative |
| `CopcHierarchy.PathStaysInGrid` | src/copc.rs:128-147 | a path of up to 31 directions leads to a key of that level with coordinates in the grid |
| `CopcHierarchy.PathsAreInjective` | src/copc.rs:128-147 | distinct paths reach distinct keys |
| `CopcHierarchy.PathsAreSurjective` | src/copc.rs:128-157 | every key of the grid is reached, by a path as long as its level |
| `CopcHierarchy.AncestorsArePrefixes` | src/copc.rs:150-165 | climbing n times reaches the key of the path without its last n directions, and finally the root |
| `CopcHierarchy.EntryLayout` | src/copc.rs:215-231 | where the fields of an entry stand |
| `CopcHierarchy.PageReadsBack` | src/copc.rs:248-263 | every page is read back as written, whatever incomplete entry follows |
| `CopcHierarchy.PageRewrites` | src/copc.rs:215-263 | every byte string is rewritten up to its last complete entry |
| `CopcHierarchy.CollectPages` | src/copc.rs:302-315 | reading pages succeeds exactly when the offset and size of every entry with point count -1 lie in the payload, and gives the hierarchy function |
| `CopcHierarchy.HierarchyReadsBack` | src/copc.rs:302-315 | a payload whose bytes hold the root page, and at the offset of each entry with point count -1 the page of its key, is read as exactly that hierarchy |
| `CopcHierarchy.ReadHierarchyIsComplete` | src/copc.rs:302-321 | iterating over a hierarchy read from in-range slices never reports a missing page |
| `CopcHierarchy.FlattenStep` | src/copc.rs:362-401 | the flattened hierarchy entry by entry: point count -1 stands for a page or a missing one, any other for the entry itself |
| `CopcHierarchy.EntryIterator.Next` | src/copc.rs:362-401 | each call yields the head of the flattened hierarchy and keeps its tail, and terminates; from a root entry it yields the entry or the missing page as the point count says |
| `CopcHierarchy.CollectEntries` | src/copc.rs:317-320 | iterating to the end yields exactly the flattened hierarchy |
| `HeaderObjects.HeaderObject.Clear` | src/header/mod.rs:223-227 | resets the statistics and nothing else |
| `HeaderObjects.HeaderObject.AddPoint` | src/header/mod.rs:239-249 | counts one point with 64-bit wrap-around and grows the bounds |
| `HeaderObjects.HeaderObject.GrowBounds` | src/bounds.rs:26-45 | the six in-place comparisons compute the grown box |
| `HeaderObjects.HeaderObject.SetStartOfFirstEvlr` | src/header/mod.rs:633-635 | records the start of the EVLRs and changes nothing else |
| `HeaderObjects.HeaderObject.RemoveCrsVlrs` | src/crs.rs:85-95 | removes exactly the WKT and GeoTIFF records of both lists in place, keeping the order of the others, and clears the WKT bit |
| `HeaderObjects.HeaderObject.SetWktCrs` | src/crs.rs:102-149 | adds the record to the list its size requires, or fails and changes nothing; it finds a CRS record if and only if one with that user id and one of the four ids exists |
| `Streams.OverwriteIs` | src/writer/mod.rs:194-220 | writing to a cursor changes the bytes it covers and no other, and fills a gap with zeros |
| `Bytes.U16BytesAre` | src/raw/header.rs:377-378 | the less significant byte comes first |
| `Bytes.U32BytesAre` | src/raw/header.rs:387-388 | the same for four bytes |
| `Bytes.U64BytesAre` | src/raw/header.rs:407-410 | the same for eight bytes |
| `Bytes.TwosComplement` | src/raw/point.rs:427-429 | negative numbers are stored in two's complement |
| `Writers.WriteVlrs` | src/writer/mod.rs:209-211 | writes the encoded list at the position of the stream, or the records before the first that cannot be written, and reports its error |
| `Writers.WriteHeader` | src/header/mod.rs:617-631 | writes exactly the preamble at the position of the stream, or reports its error |
| `Writers.WriteRawPoint` | src/raw/point.rs:423-466 | writes exactly the record, or its first 14 bytes when the flags do not fit |
| `Writers.StorePoint` | src/writer/las.rs:19-21 | converts and writes a point: its whole record, or exactly what a failure leaves |
| `Writers.WriteTail` | src/writer/mod.rs:193-211 | writes padding and EVLRs, the latter as far as they can be written, and records where they start |
| `Writers.RewriteBlock` | src/writer/mod.rs:213-224 | goes back, replaces the header block and goes back again, or fails and changes no byte |
| `Writers.RewritingHeaderCompletesFile` | src/writer/mod.rs:213-220 | replacing the header block by one with final counts turns what was written into a complete file, as both blocks have the same length |
| `Writers.Writer.New` | src/writer/mod.rs:147-173 | clears the statistics, writes the preamble at the current position and establishes the writer invariant, or reports the error |
| `Writers.Writer.AppendPoint` | src/writer/las.rs:17-22 | counts the point, then appends its record; states what a failure leaves behind, and keeps the invariant, which then has the stream short of what the count says |
| `Writers.Writer.WritePoint` | src/writer/mod.rs:253-263 | refuses when closed or when one of the five attributes differs from the format, changing nothing; otherwise counts the point, appends the record and keeps the invariant |
| `Writers.Writer.Close` | src/writer/mod.rs:186-227 | when it succeeds and with which error it fails; the whole new stream, position and header in both cases; after success a complete file stands at the start, and a second close changes nothing |
| `Writers.Writer.CloseTwice` | src/writer/mod.rs:351-357 | closing again after a failure fails for the same reason; if the header could not be rewritten, padding and EVLRs then stand over the start of the file |
| `Headers.ErrorIgnoresEvlrStart` | src/header/mod.rs:565-615 | whether a header can be written, and why not, does not depend on where its EVLRs start |
| `Writers.Writer.IntoInner` | src/writer/mod.rs:280-296 | closes if need be and hands over the stream at the start of the file |
| `Readers.ReadRawHeaderFrom` | src/raw/header.rs:257-317 | reading the header from a stream, the common part in blocks and then the fields of its version, gives the header function, its position and its errors |
| `Readers.ReadRawVlrFrom` | src/raw/vlr.rs:72-99 | the same for one record |
| `Readers.ReadVlrsFrom` | src/header/mod.rs:126-130 | the record loop gives the list function, its position and the accumulated length |
| `Readers.ReadEvlrFrom` | src/header/mod.rs:146-178 | point padding and first EVLR from their absolute positions, with the errors |
| `Readers.ReadHeaderFrom` | src/header/mod.rs:116-194 | the whole parse with its seeks refines the function the round trip is about, errors included, and leaves the stream at the points |
| `Readers.PointReader.ReadPoint` | src/reader/las.rs:24-33 | the point at the cursor, or none at the end; the position stays start plus index times record length |
| `Readers.PointReader.ReadPoints` | src/reader/las.rs:35-51 | appends exactly the next points of the list, as many as are asked for and left |
| `Readers.PointReader.Seek` | src/reader/las.rs:53-59 | moves index and stream together |
| `Readers.PointReader.Serve` | src/reader/las.rs:23-59 | any sequence of requests answers as a list of points with a cursor does |
| `Readers.ChunksConcatenate` | src/reader/las.rs:23-51 | however requests are partitioned, the chunks concatenate to the points in order |
| `RoundTrip.FileHeaderReadsBackAnywhere` | src/header/mod.rs:146-181 | of every complete file at any position, with or without EVLRs, exactly what header is read: its padding has as many stray bytes in front as the file is displaced by |
| `RoundTrip.FileHeaderReadsBack` | src/header/mod.rs:116-194 | the header of every complete file at the start of a stream is read back |
| `RoundTrip.FilePointsReadBack` | src/reader/las.rs:24-33 | the points of every complete file are its written points as stored, in order |
| `RoundTrip.OffsetsAgree` | src/header/mod.rs:737-779 | the EVLR start recorded on closing, the one computed from the counts and the one the reader computes are equal |
| `RoundTrip.ReaderIsAtPointsIffFileIsAtStart` | src/header/mod.rs:146-181 | for a file at any position the reader is left at its points if and only if the file is at the start of the stream; the header is unharmed if and only if that holds or there are no EVLRs, and else its padding grows by the displacement |
| `WrittenBounds.WrittenBoundsCoverReadPoints` | src/header/mod.rs:567-567 | for any order-preserving rounding and positive scales, the written box encloses every point as it is read back |
| `WrittenBounds.ReadBoundsCoverReadPoints` | src/header/builder.rs:77-160 | if words hold every rounded number, the box that is read encloses every point that is read |
| `WrittenBounds.RunBoxIsTight` | src/header/mod.rs:567-567 | after any run, in exact arithmetic with positive scales, the written box encloses every coordinate of the run and every one that is read back, with sides on the grid and within one scale of the extremes |
| `RunSuccess.StorableIff` | src/point/mod.rs:156-223 | a point can be stored if and only if it has the attributes of the format, its quotients fit 32 bits, and return numbers, scanner channel and class fit the flag layout |
| `RunSuccess.EighthReturnIsNotStored` | src/raw/point.rs:664-668 | for all scales and offsets, a point of format 0 that is counted but cannot be stored |
| `RunSuccess.AdaptSucceedsIff` | src/bounds.rs:71-94 | the box of a run can be written if and only if it fits around the coordinates of the run on every axis |
| `RunSuccess.FinalHeaderEncodesIff` | src/writer/mod.rs:217-220 | a run whose points could all be stored can be closed if and only if its metadata fit, its counts fit the version and a box fits around it |
| `RunSuccess.HeaderErrorReason` | src/header/mod.rs:565-774 | why a header cannot be written: the first of box, strings, sizes, offsets, numbers of records, format and counts that does not fit |
| `RunSuccess.RunSucceedsIff` | src/writer/mod.rs:147-263 | a whole run succeeds if and only if names and metadata fit, every point has the attributes of the format and fits 32 bits and the flag layout, the counts fit the version and a box fits around the run |
| `RoundTrip.FinalStatistics` | src/header/mod.rs:223-249 | the header of a finished run counts it exactly, has its exact extent and stays writable |
| `RoundTrip.WriteFile` | src/writer/mod.rs:147-263 | a whole run of the writer succeeds exactly when both headers, every point and the EVLRs can be encoded, and leaves a complete file |
| `RoundTrip.SomeRunSucceeds` | src/writer/mod.rs:147-227 | the round trip is not vacuous: for all scales and offsets, in exact arithmetic, a plain header and one point can be written |
| `RoundTrip.ReadAll` | src/reader/las.rs:12-51 | reading everything from a complete file gives its header, all its points and then none |
| `RoundTrip.WriteThenRead` | src/writer/mod.rs:147-227 | a file written and read by the two machines gives back its header as `HeaderBack` and its points as stored, in order, and then none |
| `RoundTrip.HeaderSurvivesIff` | src/header/mod.rs:116-194 | up to its snapped box, a header is read back unchanged if and only if its date fits, no string holds a NUL, it has at most one EVLR, its histogram survives and it is normalised |
| `RoundTrip.DateSurvivesIff` | src/header/builder.rs:77-160 | a date survives if and only if it exists in the calendar and its year has 16 bits |

## Left out

- LAZ compression, its VLR and the compressed paths of writer and reader: they rest on a foreign codec. Compressed
  formats appear in the format codes, the header codec and the metadata parse only.
- IEEE 754 in detail, NaN and infinite point coordinates: rounding is a parameter, so nothing is said about which real
  inputs survive a particular rounding.
- Which of several offending histogram entries an error names: `Headers.LegacyCountsRaw` and `Headers.LargeFileRaw`
  report the least, the source the first in the order of a hash map.
- I/O failures other than the end of a stream, and wrap-around of 64-bit offsets computed from counts in a damaged
  header.
- Formats.Format.Len: is unbounded, and 16-bit overflow, which panics in the source, is the precondition `LenFits` of
  writing a header.
- Readers.PointReader.ReadPoints: requires an index of at most the number of points, because the source's unsigned
  subtraction is not defined beyond it.
- Writers.Writer.Close: requires that the position after the padding is a 64-bit number.
- Writing a COPC hierarchy, whose pages come in the order of a hash map; pages nested more than one level deep, which
  the source does not resolve; the COPC info record.
- GeoTIFF keys and codes read from them: table reading without a deep property.
- The variants of the classification, GPS time types, colour and vector helpers, getters, paths and files, logging,
  dropping, and the deprecated reading and writing interfaces: they would only add easy members.
- The range of years of the calendar library: a date is a year and a day that exists in it.
