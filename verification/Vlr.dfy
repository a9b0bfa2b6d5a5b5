/** Variable length records, regular and extended, and the fixed-width strings inside them. */
module VariableRecords {
  import opened Wrappers
  import opened Bytes
  import opened Utf8

  // Strings in zero-filled buffers. A string is the bytes of its UTF-8 encoding.

  /** What `from_las_str` leaves in a zeroed buffer. */
  function LasStr(s: seq<byte>, width: nat): (r: Result<seq<byte>>)
    ensures r.Ok? ==> |r.value| == width
  {
    if |s| > width then Err(StringTooLong(|s|)) else Ok(s + Zeros(width - |s|))
  }

  /** Everything before the first NUL. */
  function UpToNul(b: seq<byte>): seq<byte> {
    if b == [] || b[0] == 0 then [] else [b[0]] + UpToNul(b[1..])
  }

  predicate NulFree(s: seq<byte>) {
    forall i :: 0 <= i < |s| ==> s[i] != 0
  }

  lemma {:induction false} UpToNulOfZeroFilled(s: seq<byte>, n: nat)
    ensures UpToNul(s + Zeros(n)) == UpToNul(s)
  {
    if s == [] {
      assert s + Zeros(n) == Zeros(n);
    } else {
      UpToNulOfZeroFilled(s[1..], n);
      assert (s + Zeros(n))[1..] == s[1..] + Zeros(n);
    }
  }

  lemma {:induction false} UpToNulKeepsNulFree(s: seq<byte>)
    ensures UpToNul(s) == s <==> NulFree(s)
    ensures |UpToNul(s)| <= |s| && NulFree(UpToNul(s))
  {
    if s != [] {
      UpToNulKeepsNulFree(s[1..]);
      if s[0] != 0 {
        assert s == [s[0]] + s[1..];
        assert UpToNul(s)[1..] == UpToNul(s[1..]);
      }
    }
  }

  /** What `as_las_string_lossy` reads: everything before the first NUL, with what is not UTF-8 replaced. */
  function LasString(b: seq<byte>): seq<byte> {
    Lossy(UpToNul(b))
  }

  /** Cutting a text at its first NUL leaves a text. */
  lemma {:induction false} UpToNulIsText(s: seq<byte>)
    requires IsText(s)
    ensures IsText(UpToNul(s))
    decreases |s|
  {
    if s != [] && s[0] != 0 {
      var n := FirstChunk(s).length;
      UpToNulIsText(s[n..]);
      CharacterStands(s, n, UpToNul(s[n..]));
      UpToNulSkips(s, n);
    }
  }

  lemma {:induction false} UpToNulSkips(s: seq<byte>, n: nat)
    requires n <= |s| && forall i | 0 <= i < n :: s[i] != 0
    ensures UpToNul(s) == s[..n] + UpToNul(s[n..])
  {
    if n > 0 {
      UpToNulSkips(s[1..], n - 1);
      assert s[1..][..n - 1] == s[1..n] && s[1..][n - 1..] == s[n..];
      assert s[..n] == [s[0]] + s[1..n];
    } else {
      assert s[0..] == s;
    }
  }

  /** A text that was put in a zero-filled buffer is read up to its first NUL. */
  lemma LasStringReadsBack(s: seq<byte>, width: nat)
    requires LasStr(s, width).Ok? && IsText(s)
    ensures LasString(LasStr(s, width).value) == UpToNul(s)
    ensures LasString(LasStr(s, width).value) == s <==> NulFree(s)
  {
    hide UpToNul, NulFree, IsText, Lossy;
    UpToNulOfZeroFilled(s, width - |s|);
    UpToNulKeepsNulFree(s);
    UpToNulIsText(s);
    LossyKeepsText(UpToNul(s));
  }

  /** Reading stops at the first NUL, whatever follows it. */
  lemma LasStringStopsAtNul(s: seq<byte>, junk: seq<byte>)
    requires IsText(s) && NulFree(s)
    ensures LasString(s + [0] + junk) == s && LasString(s) == s
  {
    hide IsText, Lossy, UpToNul;
    var b := s + [0] + junk;
    UpToNulSkips(b, |s|);
    assert b[..|s|] == s && b[|s|..][0] == 0 && s + [] == s;
    UpToNulOfNul(b[|s|..]);
    UpToNulKeepsNulFree(s);
    LossyKeepsText(s);
  }

  lemma UpToNulOfNul(b: seq<byte>)
    requires b != [] && b[0] == 0
    ensures UpToNul(b) == []
  {
  }

  /** Any bytes are read as a text; they are read as they are exactly when they are a text without NUL. */
  lemma LasStringIsText(b: seq<byte>)
    ensures IsText(LasString(b))
    ensures LasString(b) == b <==> IsText(b) && NulFree(b)
  {
    hide NulFree, IsText, Lossy, UpToNul;
    LossyKeepsIffText(UpToNul(b));
    UpToNulKeepsNulFree(b);
    if LasString(b) == b {
      LossyIsNulFree(UpToNul(b));
    }
  }

  lemma {:induction false} LossyIsNulFree(s: seq<byte>)
    requires NulFree(s)
    ensures NulFree(Lossy(s))
  {
    if s != [] {
      LossyIsNulFree(s[FirstChunk(s).length..]);
    }
  }

  /** Copies a string over the front of a buffer, in place. */
  method FromLasStr(buffer: array<byte>, s: seq<byte>) returns (r: Result<()>)
    modifies buffer
    ensures r == if |s| <= buffer.Length then Ok(()) else Err(StringTooLong(|s|))
    ensures buffer[..] == if r.Ok? then s + old(buffer[..])[|s|..] else old(buffer[..])
    ensures old(buffer[..]) == Zeros(buffer.Length) ==>
              match LasStr(s, buffer.Length)
              case Ok(b) => r.Ok? && buffer[..] == b
              case Err(e) => r == Err(e)
  {
    if buffer.Length < |s| {
      return Err(StringTooLong(|s|));
    }
    assert Zeros(buffer.Length)[|s|..] == Zeros(buffer.Length - |s|);
    for i := 0 to |s|
      invariant buffer[..i] == s[..i]
      invariant buffer[i..] == old(buffer[..])[i..]
    {
      buffer[i] := s[i];
    }
    assert buffer[..] == buffer[..|s|] + buffer[|s|..];
    return Ok(());
  }

  // Raw records

  datatype RecordLength = Regular(n16: u16) | Extended(n64: u64) {
    function Count(): nat {
      if Regular? then n16 else n64
    }
  }

  datatype RawVlr = RawVlr(
    reserved: u16,
    userId: seq<byte>,
    recordId: u16,
    recordLength: RecordLength,
    description: seq<byte>,
    data: seq<byte>)

  function VlrWidths(extended: bool): seq<nat> {
    [2, 16, 2, if extended then 8 else 2, 32]
  }

  function VlrHeaderSize(extended: bool): nat {
    if extended then 60 else 54
  }

  lemma VlrWidthsSum(extended: bool)
    ensures Sum(VlrWidths(extended)) == VlrHeaderSize(extended)
  {
    var w := VlrWidths(extended);
    assert w == w[..4] + w[4..];
    SumAppend(w[..4], w[4..]);
    SumOfFour(w[..4]);
    assert w[4..][1..] == [];
  }

  predicate WellFormed(r: RawVlr) {
    |r.userId| == 16 && |r.description| == 32 && |r.data| == r.recordLength.Count()
  }

  function VlrFields(r: RawVlr): seq<seq<byte>> {
    [U16Bytes(r.reserved), r.userId, U16Bytes(r.recordId),
     match r.recordLength case Regular(n) => U16Bytes(n) case Extended(n) => U64Bytes(n),
     r.description]
  }

  function EncodeRawVlr(r: RawVlr): seq<byte> {
    Join(VlrFields(r)) + r.data
  }

  /** The record at `pos` and the position after it. */
  function ReadRawVlr(s: seq<byte>, pos: nat, extended: bool): (r: Result<(RawVlr, nat)>)
    ensures r.Ok? ==> WellFormed(r.value.0) && r.value.0.recordLength.Extended? == extended
    ensures r.Ok? ==> r.value.1 == pos + VlrHeaderSize(extended) + |r.value.0.data| <= |s|
  {
    VlrWidthsSum(extended);
    var header :- ReadExact(s, pos, VlrHeaderSize(extended));
    var c := Split(header, VlrWidths(extended));
    var length := if extended then Extended(GetU64(c[3])) else Regular(GetU16(c[3]));
    var data :- ReadExact(s, pos + VlrHeaderSize(extended), length.Count());
    Ok((RawVlr(GetU16(c[0]), c[1], GetU16(c[2]), length, c[4], data),
        pos + VlrHeaderSize(extended) + length.Count()))
  }

  lemma VlrFieldsHaveWidths(r: RawVlr)
    requires WellFormed(r)
    ensures HaveWidths(VlrFields(r), VlrWidths(r.recordLength.Extended?))
    ensures |Join(VlrFields(r))| == VlrHeaderSize(r.recordLength.Extended?)
    ensures |EncodeRawVlr(r)| == VlrHeaderSize(r.recordLength.Extended?) + |r.data|
  {
    VlrWidthsSum(r.recordLength.Extended?);
    JoinLength(VlrFields(r), VlrWidths(r.recordLength.Extended?));
  }

  lemma RawVlrReadsBack(s: seq<byte>, pos: nat, r: RawVlr)
    requires WellFormed(r) && At(s, pos, EncodeRawVlr(r))
    ensures ReadRawVlr(s, pos, r.recordLength.Extended?) == Ok((r, pos + |EncodeRawVlr(r)|))
  {
    hide Join, Sum, U16Bytes, U64Bytes;
    var fields, widths := VlrFields(r), VlrWidths(r.recordLength.Extended?);
    VlrFieldsHaveWidths(r);
    VlrWidthsSum(r.recordLength.Extended?);
    AtAppend(s, pos, Join(fields), r.data);
    SplitJoin(fields, widths, []);
    assert Join(fields) + [] == Join(fields);
  }

  /** Raw records one after the other. */
  function EncodeRawVlrs(rs: seq<RawVlr>): seq<byte> {
    if rs == [] then [] else EncodeRawVlr(rs[0]) + EncodeRawVlrs(rs[1..])
  }

  function ReadRawVlrs(s: seq<byte>, pos: nat, n: nat, extended: bool): Result<(seq<RawVlr>, nat)>
    decreases n
  {
    if n == 0 then Ok(([], pos))
    else
      var first :- ReadRawVlr(s, pos, extended);
      var rest :- ReadRawVlrs(s, first.1, n - 1, extended);
      Ok(([first.0] + rest.0, rest.1))
  }

  /** Any list of well-formed raw records of one kind is read back, and exactly its bytes are consumed. */
  lemma {:induction false} RawVlrsReadBack(s: seq<byte>, pos: nat, rs: seq<RawVlr>, extended: bool)
    requires forall r | r in rs :: WellFormed(r) && r.recordLength.Extended? == extended
    requires At(s, pos, EncodeRawVlrs(rs))
    ensures ReadRawVlrs(s, pos, |rs|, extended) == Ok((rs, pos + |EncodeRawVlrs(rs)|))
    decreases |rs|
  {
    hide At, EncodeRawVlr, EncodeRawVlrs, ReadRawVlr, ReadRawVlrs, WellFormed;
    RawVlrsStep(s, pos, rs, extended);
    if rs != [] {
      assert rs[0] in rs && forall r | r in rs[1..] :: r in rs;
      AtAppend(s, pos, EncodeRawVlr(rs[0]), EncodeRawVlrs(rs[1..]));
      RawVlrReadsBack(s, pos, rs[0]);
      RawVlrsReadBack(s, pos + |EncodeRawVlr(rs[0])|, rs[1..], extended);
    }
  }

  lemma RawVlrsStep(s: seq<byte>, pos: nat, rs: seq<RawVlr>, extended: bool)
    ensures rs == [] ==> EncodeRawVlrs(rs) == [] && ReadRawVlrs(s, pos, 0, extended) == Ok(([], pos))
    ensures rs != [] ==>
              && EncodeRawVlrs(rs) == EncodeRawVlr(rs[0]) + EncodeRawVlrs(rs[1..])
              && forall mid: nat, end: nat ::
                   ReadRawVlr(s, pos, extended) == Ok((rs[0], mid))
                   && ReadRawVlrs(s, mid, |rs| - 1, extended) == Ok((rs[1..], end))
                   ==> ReadRawVlrs(s, pos, |rs|, extended) == Ok((rs, end))
  {
    hide EncodeRawVlr, ReadRawVlr;
    if rs != [] {
      assert rs == [rs[0]] + rs[1..];
    }
  }

  // Records as users see them

  datatype Vlr = Vlr(userId: seq<byte>, recordId: u16, description: seq<byte>, data: seq<byte>) {
    function Len(extended: bool): nat {
      |data| + VlrHeaderSize(extended)
    }

    predicate HasLargeData() {
      |data| > U16_MAX
    }

    /** Both strings are UTF-8, as the type of strings guarantees. */
    predicate HasText() {
      IsText(userId) && IsText(description)
    }
  }

  function NewVlr(raw: RawVlr): Vlr {
    Vlr(LasString(raw.userId), raw.recordId, LasString(raw.description), raw.data)
  }

  function VlrIntoRaw(v: Vlr, extended: bool): (r: Result<RawVlr>)
    ensures r.Ok? && |v.data| <= U64_MAX ==> WellFormed(r.value) && r.value.recordLength.Extended? == extended
  {
    var userId :- LasStr(v.userId, 16);
    var description :- LasStr(v.description, 32);
    if extended then
      Ok(RawVlr(0, userId, v.recordId, Extended(|v.data| % 0x1_0000_0000_0000_0000), description, v.data))
    else if v.HasLargeData() then Err(VlrTooLong(|v.data|))
    else Ok(RawVlr(0, userId, v.recordId, Regular(|v.data|), description, v.data))
  }

  /** The record as reading gives it back: strings end at their first NUL. */
  function Trimmed(v: Vlr): Vlr {
    v.(userId := UpToNul(v.userId), description := UpToNul(v.description))
  }

  function TrimmedAll(vs: seq<Vlr>): (r: seq<Vlr>)
    ensures |r| == |vs| && forall i :: 0 <= i < |vs| ==> r[i] == Trimmed(vs[i])
  {
    seq(|vs|, i requires 0 <= i < |vs| => Trimmed(vs[i]))
  }

  lemma TrimmedIsSameIffNulFree(v: Vlr)
    ensures Trimmed(v) == v <==> NulFree(v.userId) && NulFree(v.description)
  {
    UpToNulKeepsNulFree(v.userId);
    UpToNulKeepsNulFree(v.description);
  }

  function EncodeVlr(v: Vlr, extended: bool): Result<seq<byte>> {
    var raw :- VlrIntoRaw(v, extended);
    Ok(EncodeRawVlr(raw))
  }

  /** A list of records, or the error of the first that cannot be written. */
  function EncodeVlrs(vs: seq<Vlr>, extended: bool): Result<seq<byte>> {
    if vs == [] then Ok([])
    else
      var first :- EncodeVlr(vs[0], extended);
      var rest :- EncodeVlrs(vs[1..], extended);
      Ok(first + rest)
  }

  /** What is written of a list before the first record that cannot be. */
  function EncodedPrefix(vs: seq<Vlr>, extended: bool): seq<byte> {
    if vs == [] then []
    else match EncodeVlr(vs[0], extended)
      case Ok(b) => b + EncodedPrefix(vs[1..], extended)
      case Err(_) => []
  }

  function VlrsLen(vs: seq<Vlr>, extended: bool): nat {
    if vs == [] then 0 else vs[0].Len(extended) + VlrsLen(vs[1..], extended)
  }

  function ReadVlrs(s: seq<byte>, pos: nat, n: nat): Result<(seq<Vlr>, nat)>
    decreases n
  {
    if n == 0 then Ok(([], pos))
    else
      var first :- ReadRawVlr(s, pos, false);
      var rest :- ReadVlrs(s, first.1, n - 1);
      Ok(([NewVlr(first.0)] + rest.0, rest.1))
  }

  /** Why a record cannot be written: its user id, its description or, if it is regular, its data are too long. */
  lemma RecordErrors(v: Vlr, extended: bool)
    ensures EncodeVlr(v, extended).Err?
            <==> |v.userId| > 16 || |v.description| > 32 || (!extended && |v.data| > 65535)
    ensures EncodeVlr(v, extended).Err? ==>
              EncodeVlr(v, extended).error
              == if |v.userId| > 16 then StringTooLong(|v.userId|)
                 else if |v.description| > 32 then StringTooLong(|v.description|)
                 else VlrTooLong(|v.data|)
  {
    hide EncodeRawVlr;
  }

  lemma EncodedVlrLength(v: Vlr, extended: bool)
    requires EncodeVlr(v, extended).Ok? && (extended ==> |v.data| <= U64_MAX)
    ensures |EncodeVlr(v, extended).value| == v.Len(extended)
  {
    VlrFieldsHaveWidths(VlrIntoRaw(v, extended).value);
  }

  /** A written record is read back with its strings cut at their first NUL, and nothing more is consumed. */
  lemma VlrReadsBack(s: seq<byte>, pos: nat, v: Vlr, extended: bool)
    requires EncodeVlr(v, extended).Ok? && (extended ==> |v.data| <= U64_MAX) && v.HasText()
    requires At(s, pos, EncodeVlr(v, extended).value)
    ensures var r := ReadRawVlr(s, pos, extended);
            r.Ok? && NewVlr(r.value.0) == Trimmed(v) && r.value.1 == pos + v.Len(extended)
  {
    var raw := VlrIntoRaw(v, extended).value;
    RawVlrReadsBack(s, pos, raw);
    VlrFieldsHaveWidths(raw);
    LasStringReadsBack(v.userId, 16);
    LasStringReadsBack(v.description, 32);
  }

  /** So is every list of records. */
  lemma {:induction false} VlrsReadBack(s: seq<byte>, pos: nat, vs: seq<Vlr>)
    requires EncodeVlrs(vs, false).Ok? && At(s, pos, EncodeVlrs(vs, false).value)
    requires forall v | v in vs :: v.HasText()
    ensures |EncodeVlrs(vs, false).value| == VlrsLen(vs, false)
    ensures ReadVlrs(s, pos, |vs|) == Ok((TrimmedAll(vs), pos + VlrsLen(vs, false)))
    decreases |vs|
  {
    hide ReadRawVlr, EncodeVlr, NewVlr, TrimmedAll, Trimmed, At, Vlr.HasText;
    if vs != [] {
      var first, rest := EncodeVlr(vs[0], false).value, EncodeVlrs(vs[1..], false).value;
      assert vs[0] in vs && forall v | v in vs[1..] :: v in vs;
      EncodedVlrLength(vs[0], false);
      AtAppend(s, pos, first, rest);
      VlrReadsBack(s, pos, vs[0], false);
      VlrsReadBack(s, pos + |first|, vs[1..]);
      TrimmedOfSome(vs);
    }
  }

  lemma TrimmedOfSome(vs: seq<Vlr>)
    requires vs != []
    ensures TrimmedAll(vs) == [Trimmed(vs[0])] + TrimmedAll(vs[1..])
  {
    hide Trimmed;
  }
}
