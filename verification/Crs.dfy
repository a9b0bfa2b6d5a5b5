/** Editing the coordinate reference system records of a header. */
module CrsRecords {
  import opened Wrappers
  import opened Bytes
  import opened Utf8
  import opened Versions
  import opened VariableRecords
  import opened Headers
  import opened Builders

  /** "LASF_Projection". */
  const PROJECTION_USER_ID: seq<byte> :=
    [0x4C, 0x41, 0x53, 0x46, 0x5F, 0x50, 0x72, 0x6F, 0x6A, 0x65, 0x63, 0x74, 0x69, 0x6F, 0x6E]

  const WKT_RECORD_ID: u16 := 2112

  function Lower(b: byte): byte {
    if 0x41 <= b <= 0x5A then b + 0x20 else b
  }

  /** User ids are compared without regard to case. */
  predicate IsProjectionUser(v: Vlr) {
    |v.userId| == |PROJECTION_USER_ID| &&
    forall i :: 0 <= i < |v.userId| ==> Lower(v.userId[i]) == Lower(PROJECTION_USER_ID[i])
  }

  predicate IsProjection(v: Vlr) {
    IsProjectionUser(v) && v.recordId in {2112, 34735, 34736, 34737}
  }

  predicate IsWkt(v: Vlr) {
    IsProjectionUser(v) && v.recordId == WKT_RECORD_ID
  }

  predicate HasProjection(vs: seq<Vlr>) {
    exists v | v in vs :: IsProjection(v)
  }

  /** The records that are not about the CRS, in their order. */
  function WithoutProjections(vs: seq<Vlr>): seq<Vlr> {
    if vs == [] then []
    else if IsProjection(vs[0]) then WithoutProjections(vs[1..])
    else [vs[0]] + WithoutProjections(vs[1..])
  }

  function WithoutCrs(h: Header): Header {
    h.(vlrs := WithoutProjections(h.vlrs), evlrs := WithoutProjections(h.evlrs), hasWktCrs := false)
  }

  /** The raw record that is made for WKT bytes, as a user sees it. */
  function WktVlr(bytes: seq<byte>): Vlr {
    var length := if |bytes| > U16_MAX then Extended(|bytes| % 0x1_0000_0000_0000_0000) else Regular(|bytes|);
    NewVlr(RawVlr(0, PROJECTION_USER_ID + [0], WKT_RECORD_ID, length, Zeros(32), bytes))
  }

  function WithWktCrs(h: Header, bytes: seq<byte>): Result<Header> {
    if !Version(1, 4).AtMost(h.version) then Err(UnsupportedFeature)
    else if HasProjection(h.vlrs + h.evlrs) then Err(HeaderContainsCrsVlr)
    else if |bytes| > U16_MAX then Ok(h.(evlrs := h.evlrs + [WktVlr(bytes)], hasWktCrs := true))
    else Ok(h.(vlrs := h.vlrs + [WktVlr(bytes)], hasWktCrs := true))
  }

  function FirstWkt(vs: seq<Vlr>): Option<seq<byte>> {
    if vs == [] then None else if IsWkt(vs[0]) then Some(vs[0].data) else FirstWkt(vs[1..])
  }

  function WktCrsBytes(h: Header): Option<seq<byte>> {
    FirstWkt(h.vlrs + h.evlrs)
  }

  lemma TerminatedReadsBack(s: seq<byte>)
    requires NulFree(s) && forall i :: 0 <= i < |s| ==> s[i] < 0x80
    ensures LasString(s + [0]) == s
  {
    hide UpToNul, Lossy, IsText;
    AsciiIsText(s);
    LasStringReadsBack(s, |s| + 1);
    assert s + [0] == s + Zeros(1);
  }

  lemma WktVlrIsWkt(bytes: seq<byte>)
    ensures WktVlr(bytes).data == bytes && IsWkt(WktVlr(bytes)) && IsProjection(WktVlr(bytes))
  {
    hide LasString, Zeros;
    TerminatedReadsBack(PROJECTION_USER_ID);
  }

  lemma {:induction false} RemovalRemovesAll(vs: seq<Vlr>)
    ensures !HasProjection(WithoutProjections(vs))
    ensures forall v | v in WithoutProjections(vs) :: v in vs
    ensures !HasProjection(vs) ==> WithoutProjections(vs) == vs
  {
    if vs != [] {
      RemovalRemovesAll(vs[1..]);
      assert vs == [vs[0]] + vs[1..];
      assert forall v | v in vs[1..] :: v in vs;
    }
  }

  lemma {:induction false} RemovalAppends(xs: seq<Vlr>, ys: seq<Vlr>)
    ensures WithoutProjections(xs + ys) == WithoutProjections(xs) + WithoutProjections(ys)
  {
    hide IsProjection;
    if xs == [] {
      assert xs + ys == ys;
    } else {
      RemovalAppends(xs[1..], ys);
      assert (xs + ys)[1..] == xs[1..] + ys;
    }
  }

  lemma {:induction false} FirstWktSkips(xs: seq<Vlr>, v: Vlr, ys: seq<Vlr>)
    requires !HasProjection(xs) && IsWkt(v)
    ensures FirstWkt(xs + [v] + ys) == Some(v.data)
  {
    var all := xs + [v] + ys;
    if xs == [] {
      assert all[0] == v;
    } else {
      assert xs[0] in xs && !IsProjection(xs[0]);
      assert forall x | x in xs[1..] :: x in xs;
      FirstWktSkips(xs[1..], v, ys);
      assert all[0] == xs[0] && all[1..] == xs[1..] + [v] + ys;
    }
  }

  // What the records of a CRS are, on their fields

  /** A byte is a letter of the Latin alphabet or its other case. */
  predicate SameLetter(b: byte, c: byte) {
    || b == c
    || (0x41 <= b <= 0x5A && c == b + 32)
    || (0x61 <= b <= 0x7A && c == b - 32)
  }

  /** The user id "LASF_Projection" in any mixture of cases. */
  predicate NamesProjection(id: seq<byte>) {
    && |id| == 15
    && SameLetter(0x4C, id[0]) && SameLetter(0x41, id[1]) && SameLetter(0x53, id[2]) && SameLetter(0x46, id[3])
    && id[4] == 0x5F
    && SameLetter(0x50, id[5]) && SameLetter(0x72, id[6]) && SameLetter(0x6F, id[7]) && SameLetter(0x6A, id[8])
    && SameLetter(0x65, id[9]) && SameLetter(0x63, id[10]) && SameLetter(0x74, id[11]) && SameLetter(0x69, id[12])
    && SameLetter(0x6F, id[13]) && SameLetter(0x6E, id[14])
  }

  /** A WKT record or one of the three GeoTIFF records. */
  predicate DescribesCrs(v: Vlr) {
    && NamesProjection(v.userId)
    && (v.recordId == 2112 || v.recordId == 34735 || v.recordId == 34736 || v.recordId == 34737)
  }

  lemma UserIsNamed(v: Vlr)
    ensures IsProjectionUser(v) <==> NamesProjection(v.userId)
  {
    var id, p := v.userId, PROJECTION_USER_ID;
    if |id| == 15 {
      assert IsProjectionUser(v) <==> forall i :: 0 <= i < 15 ==> Lower(id[i]) == Lower(p[i]);
      forall i | 0 <= i < 15 ensures Lower(id[i]) == Lower(p[i]) <==> SameLetter(p[i], id[i]) {
      }
    }
  }

  lemma ProjectionsDescribeCrs(v: Vlr)
    ensures IsProjection(v) <==> DescribesCrs(v)
    ensures IsWkt(v) <==> NamesProjection(v.userId) && v.recordId == 2112
  {
    hide IsProjectionUser, NamesProjection;
    UserIsNamed(v);
  }

  /** A list is what is left of another after dropping the CRS records: the others, in their order. */
  predicate KeepsOthers(vs: seq<Vlr>, kept: seq<Vlr>)
    decreases |vs|
  {
    if vs == [] then kept == []
    else if DescribesCrs(vs[0]) then KeepsOthers(vs[1..], kept)
    else kept != [] && kept[0] == vs[0] && KeepsOthers(vs[1..], kept[1..])
  }

  lemma {:induction false} RemovalKeepsOthers(vs: seq<Vlr>)
    ensures KeepsOthers(vs, WithoutProjections(vs))
  {
    hide IsProjection, DescribesCrs;
    if vs != [] {
      ProjectionsDescribeCrs(vs[0]);
      RemovalKeepsOthers(vs[1..]);
      var kept := WithoutProjections(vs);
      if !DescribesCrs(vs[0]) {
        assert kept[1..] == WithoutProjections(vs[1..]);
      }
    }
  }

  /** Removing keeps exactly the records whose user id or record id is another one, in order, and clears the WKT bit. */
  lemma RemovingDropsExactlyCrs(h: Header)
    ensures var r := WithoutCrs(h);
            && KeepsOthers(h.vlrs, r.vlrs) && KeepsOthers(h.evlrs, r.evlrs) && !r.hasWktCrs
            && r == h.(vlrs := r.vlrs, evlrs := r.evlrs, hasWktCrs := false)
  {
    RemovalKeepsOthers(h.vlrs);
    RemovalKeepsOthers(h.evlrs);
  }

  lemma HasProjectionIff(vs: seq<Vlr>)
    ensures HasProjection(vs) <==> exists v | v in vs :: DescribesCrs(v)
  {
    hide IsProjection, DescribesCrs;
    forall v: Vlr ensures IsProjection(v) <==> DescribesCrs(v) {
      ProjectionsDescribeCrs(v);
    }
  }

  /** Setting a WKT CRS fails before 1.4; from 1.4 on it fails exactly when one of the four records is in either list;
      otherwise it appends a WKT record with the bytes, to the extended list if they are more than 65535. */
  lemma SettingSucceedsIff(h: Header, bytes: seq<byte>)
    ensures var r := WithWktCrs(h, bytes);
            var wkt := Vlr([0x4C, 0x41, 0x53, 0x46, 0x5F, 0x50, 0x72, 0x6F, 0x6A, 0x65, 0x63, 0x74, 0x69, 0x6F, 0x6E],
                           2112, [], bytes);
            if h.version.major == 0 || (h.version.major == 1 && h.version.minor < 4) then r == Err(UnsupportedFeature)
            else if exists v | v in h.vlrs + h.evlrs :: DescribesCrs(v) then r == Err(HeaderContainsCrsVlr)
            else if |bytes| > 65535 then r == Ok(h.(evlrs := h.evlrs + [wkt], hasWktCrs := true))
            else r == Ok(h.(vlrs := h.vlrs + [wkt], hasWktCrs := true))
  {
    hide DescribesCrs, IsProjection, HasProjection, WktVlr;
    HasProjectionIff(h.vlrs + h.evlrs);
    WktVlrIs(bytes);
  }

  lemma WktVlrIs(bytes: seq<byte>)
    ensures WktVlr(bytes) == Vlr(PROJECTION_USER_ID, 2112, [], bytes)
  {
    hide UpToNul, Lossy;
    TerminatedReadsBack(PROJECTION_USER_ID);
    ZerosReadAsNothing(32);
  }

  lemma ZerosReadAsNothing(n: nat)
    ensures LasString(Zeros(n)) == []
  {
  }

  /** The bytes that are found are the data of the first WKT record, regular records first. */
  lemma {:induction false} FirstWktIsFirst(vs: seq<Vlr>, i: nat)
    requires i < |vs| && NamesProjection(vs[i].userId) && vs[i].recordId == 2112
    requires forall j | 0 <= j < i :: !(NamesProjection(vs[j].userId) && vs[j].recordId == 2112)
    ensures FirstWkt(vs) == Some(vs[i].data)
    decreases i
  {
    hide NamesProjection, IsWkt;
    ProjectionsDescribeCrs(vs[0]);
    if i > 0 {
      FirstWktIsFirst(vs[1..], i - 1);
    }
  }

  lemma {:induction false} NoWktIsFound(vs: seq<Vlr>)
    requires forall v | v in vs :: !(NamesProjection(v.userId) && v.recordId == 2112)
    ensures FirstWkt(vs) == None
  {
    hide NamesProjection, IsWkt;
    if vs != [] {
      ProjectionsDescribeCrs(vs[0]);
      assert vs[0] in vs && forall v | v in vs[1..] :: v in vs;
      NoWktIsFound(vs[1..]);
    }
  }

  /** Removing and setting the CRS: it always succeeds, the bytes are found wherever they were put,
      a second setting fails, and removing again restores both lists with all other records in order. */
  lemma SettingAfterRemoving(h: Header, bytes: seq<byte>, other: seq<byte>)
    requires Version(1, 4).AtMost(h.version)
    ensures var edited := WithWktCrs(WithoutCrs(h), bytes);
            && edited.Ok?
            && edited.value.hasWktCrs
            && WktCrsBytes(edited.value) == Some(bytes)
            && WithWktCrs(edited.value, other) == Err(HeaderContainsCrsVlr)
            && WithoutCrs(edited.value) == WithoutCrs(h)
  {
    var r := WithoutCrs(h);
    RemovalRemovesAll(h.vlrs);
    RemovalRemovesAll(h.evlrs);
    SettingSucceedsIff(r, bytes);
    SettingIsFound(r, bytes);
    SettingIsUndone(r, bytes);
    SettingSucceedsIff(WithWktCrs(r, bytes).value, other);
    RemovalRemovesAll(r.vlrs);
    RemovalRemovesAll(r.evlrs);
  }

  lemma SettingIsFound(r: Header, bytes: seq<byte>)
    requires WithWktCrs(r, bytes).Ok?
    ensures WktCrsBytes(WithWktCrs(r, bytes).value) == Some(bytes)
    ensures var e := WithWktCrs(r, bytes).value; HasProjection(e.vlrs) || HasProjection(e.evlrs)
  {
    hide WktVlr, IsProjection, IsWkt;
    SettingSucceedsIff(r, bytes);
    WktVlrIsWkt(bytes);
    var w, e := WktVlr(bytes), WithWktCrs(r, bytes).value;
    if |bytes| > U16_MAX {
      assert e.evlrs[|r.evlrs|] == w;
      assert e.vlrs + e.evlrs == (r.vlrs + r.evlrs) + [w] + [];
      FirstWktSkips(r.vlrs + r.evlrs, w, []);
    } else {
      assert e.vlrs[|r.vlrs|] == w;
      assert e.vlrs + e.evlrs == r.vlrs + [w] + r.evlrs;
      FirstWktSkips(r.vlrs, w, r.evlrs);
    }
  }

  lemma SettingIsUndone(r: Header, bytes: seq<byte>)
    requires WithWktCrs(r, bytes).Ok?
    ensures WithoutCrs(WithWktCrs(r, bytes).value) == WithoutCrs(r)
  {
    hide WktVlr, IsProjection, IsWkt;
    WktVlrIsWkt(bytes);
    var w := WktVlr(bytes);
    RemovalAppends(r.vlrs, [w]);
    RemovalAppends(r.evlrs, [w]);
    assert WithoutProjections([w]) == [];
  }

  /** Editing the CRS keeps a header sound. */
  lemma EditingKeepsSound(h: Header, bytes: seq<byte>)
    requires Sound(h)
    ensures Sound(WithoutCrs(h))
    ensures WithWktCrs(h, bytes).Ok? ==> Sound(WithWktCrs(h, bytes).value)
  {
    hide IsProjection, IsWkt, HasProjection;
    RemovalRemovesAll(h.vlrs);
    RemovalRemovesAll(h.evlrs);
    WktVlrIsWkt(bytes);
    if h.evlrs == [] {
      assert WithoutProjections(h.evlrs) == [];
    }
  }
}
