/** The record codec is a two-sided inverse, except where NIR and waveform meet in one format. */
module PointCodec {
  import opened Wrappers
  import opened Bytes
  import opened Formats
  import opened Transforms
  import opened RawPoints

  /** A raw point laid out for the format, as one just read from it is. */
  predicate Shaped(p: RawPoint, f: Format) {
    && p.flags.ThreeByte? == f.isExtended
    && p.scanAngle.Scaled? == f.isExtended
    && p.gpsTime.Some? == f.hasGpsTime
    && p.color.Some? == f.hasColor
    && p.waveform.Some? == f.hasWaveform
    && (p.nir.Some? ==> f.hasNir)
    && |p.extraBytes| == f.extraBytes
  }

  predicate AllEqual(s: seq<byte>) {
    forall i :: 0 <= i < |s| ==> s[i] == s[0]
  }

  /** The order in which NIR and waveform are stored cannot be seen in the bytes. */
  predicate OrderBlind(f: Format, block: seq<byte>) {
    f.hasNir && f.hasWaveform ==> AllEqual(block)
  }

  function OptionalBlock(p: RawPoint, f: Format): seq<byte> {
    NirBytes(p, f) + WaveformBytes(p, f)
  }

  function WaveWidth(f: Format): nat {
    if f.hasWaveform then 29 else 0
  }

  /** Fields nine and ten as the reader cuts them. */
  function Recut(fields: seq<seq<byte>>, n: nat): (r: seq<seq<byte>>)
    requires |fields| == 12 && n <= |fields[9]| + |fields[10]|
    ensures |r| == 12
  {
    var block := fields[9] + fields[10];
    fields[9 := block[..n]][10 := block[n..]]
  }

  lemma JoinAround(fields: seq<seq<byte>>)
    requires |fields| == 12
    ensures Join(fields) == Join(fields[..9]) + (fields[9] + fields[10]) + fields[11]
  {
    var tail := fields[9..];
    assert fields == fields[..9] + tail;
    JoinAppend(fields[..9], tail);
    assert tail[1..][1..] == [fields[11]];
    assert Join([fields[11]]) == fields[11] + Join([]);
    assert Join(tail[1..]) == fields[10] + Join(tail[1..][1..]);
  }

  lemma RecutJoins(fields: seq<seq<byte>>, n: nat)
    requires |fields| == 12 && n <= |fields[9]| + |fields[10]|
    ensures Join(Recut(fields, n)) == Join(fields)
  {
    var r := Recut(fields, n);
    JoinAround(fields);
    JoinAround(r);
    assert r[..9] == fields[..9];
    assert r[9] + r[10] == fields[9] + fields[10];
  }

  lemma StoredLength(flags: Flags, isExtended: bool)
    ensures flags.Stored(isExtended).Ok? ==> |flags.Stored(isExtended).value| == if isExtended then 3 else 2
    ensures flags.ThreeByte? && isExtended ==>
              flags.Stored(isExtended) == Ok([Octet(flags.a), Octet(flags.b), Octet(flags.c)])
    ensures flags.TwoByte? && !isExtended ==> flags.Stored(isExtended) == Ok([Octet(flags.a), Octet(flags.b)])
  {
  }

  lemma WaveformBytesLength(p: RawPoint, f: Format)
    ensures |WaveformBytes(p, f)| == WaveWidth(f)
  {
    ReadWidthsSum(f);
    JoinLength(WaveformFields(DEFAULT_WAVEFORM), WAVEFORM_WIDTHS);
    if p.waveform.Some? {
      JoinLength(WaveformFields(p.waveform.value), WAVEFORM_WIDTHS);
    }
  }

  lemma RecutHasReadWidths(fp: Fp, p: RawPoint, f: Format, flags: seq<byte>)
    requires |p.extraBytes| == f.extraBytes && |flags| == if f.isExtended then 3 else 2
    ensures var fields := PointFields(fp, p, f, flags);
            && |fields| == 12
            && |fields[9]| + |fields[10]| >= WaveWidth(f)
            && HaveWidths(Recut(fields, WaveWidth(f)), ReadWidths(f))
  {
    hide Octet, Bits, U16Bytes, U32Bytes, U64Bytes, Join, Sum, Split;
    ReadWidthsSum(f);
    WaveformBytesLength(p, f);
    var fields, w := PointFields(fp, p, f, flags), ReadWidths(f);
    var r := Recut(fields, WaveWidth(f));
    assert |r[9]| == w[9] && |r[10]| == w[10];
    assert forall i | 0 <= i < 9 || i == 11 :: |fields[i]| == w[i];
  }

  /** Every record of a format has the same length, whatever the point. */
  lemma EncodedLength(fp: Fp, p: RawPoint, f: Format)
    requires |p.extraBytes| == f.extraBytes && EncodePoint(fp, p, f).Ok?
    ensures |EncodePoint(fp, p, f).value| == f.Len()
  {
    StoredLength(p.flags, f.isExtended);
    var fields := PointFields(fp, p, f, p.flags.Stored(f.isExtended).value);
    RecutHasReadWidths(fp, p, f, p.flags.Stored(f.isExtended).value);
    var r := Recut(fields, WaveWidth(f));
    RecutJoins(fields, WaveWidth(f));
    JoinLength(r, ReadWidths(f));
    ReadWidthsSum(f);
  }

  /** The read fields of an encoded point are its written fields, recut. */
  lemma SplitOfEncoded(fp: Fp, p: RawPoint, f: Format)
    requires |p.extraBytes| == f.extraBytes && EncodePoint(fp, p, f).Ok?
    ensures |EncodePoint(fp, p, f).value| == f.Len() == Sum(ReadWidths(f))
    ensures var fields := PointFields(fp, p, f, p.flags.Stored(f.isExtended).value);
            && |fields| == 12 && |fields[9]| + |fields[10]| >= WaveWidth(f)
            && Split(EncodePoint(fp, p, f).value, ReadWidths(f)) == Recut(fields, WaveWidth(f))
  {
    EncodedLength(fp, p, f);
    ReadWidthsSum(f);
    StoredLength(p.flags, f.isExtended);
    var fields := PointFields(fp, p, f, p.flags.Stored(f.isExtended).value);
    RecutHasReadWidths(fp, p, f, p.flags.Stored(f.isExtended).value);
    var r := Recut(fields, WaveWidth(f));
    RecutJoins(fields, WaveWidth(f));
    SplitJoin(r, ReadWidths(f), []);
    assert Join(r) + [] == EncodePoint(fp, p, f).value;
  }

  lemma WaveformReadsBack(w: Waveform)
    ensures |Join(WaveformFields(w))| == 29
    ensures GetWaveform(Join(WaveformFields(w))) == w
  {
    ReadWidthsSum(Format(false, false, false, false, false, 0, false));
    var fields := WaveformFields(w);
    SplitJoin(fields, WAVEFORM_WIDTHS, []);
    assert Join(fields) + [] == Join(fields);
    assert Split(Join(fields), WAVEFORM_WIDTHS) == fields;
  }

  lemma ColorReadsBack(c: Color)
    ensures GetColor(ColorBytes(c)) == c
  {
    var s := ColorBytes(c);
    assert s[..2] == U16Bytes(c.red) && s[2..4] == U16Bytes(c.green) && s[4..] == U16Bytes(c.blue);
  }

  function NirValue(s: seq<byte>): Option<u16>
    requires |s| == 2
  {
    if GetU16(s) == 0 then None else Some(GetU16(s))
  }

  /** Decoding an encoded point loses nothing outside the waveform and NIR, which come back recut. */
  lemma DecodeOfEncoded(fp: Fp, p: RawPoint, f: Format)
    requires Shaped(p, f)
    ensures EncodePoint(fp, p, f).Ok? && |EncodePoint(fp, p, f).value| == f.Len()
    ensures var block := OptionalBlock(p, f);
            && |block| == WaveWidth(f) + (if f.hasNir then 2 else 0)
            && DecodePoint(EncodePoint(fp, p, f).value, f)
               == p.(waveform := if f.hasWaveform then Some(GetWaveform(block[..29])) else None,
                     nir := if f.hasNir then NirValue(block[WaveWidth(f)..]) else None)
  {
    hide Octet, Bits, U16Bytes, U32Bytes, U64Bytes, Join, Sum;
    StoredLength(p.flags, f.isExtended);
    SplitOfEncoded(fp, p, f);
    WaveformBytesLength(p, f);
    PointFromRecutFields(fp, p, f, p.flags.Stored(f.isExtended).value);
  }

  lemma PointFromRecutFields(fp: Fp, p: RawPoint, f: Format, flags: seq<byte>)
    requires Shaped(p, f) && p.flags.Stored(f.isExtended) == Ok(flags)
    requires var fields := PointFields(fp, p, f, flags);
             |fields[9]| + |fields[10]| >= WaveWidth(f) && HaveWidths(Recut(fields, WaveWidth(f)), ReadWidths(f))
    ensures var block := OptionalBlock(p, f);
            && |block| == WaveWidth(f) + (if f.hasNir then 2 else 0)
            && PointFromFields(Recut(PointFields(fp, p, f, flags), WaveWidth(f)), f)
               == p.(waveform := if f.hasWaveform then Some(GetWaveform(block[..29])) else None,
                     nir := if f.hasNir then NirValue(block[WaveWidth(f)..]) else None)
  {
    hide Octet, Bits, U16Bytes, U32Bytes, U64Bytes, Join, Sum, Split, GetWaveform, GetColor, ColorBytes;
    hide WaveformBytes;
    StoredLength(p.flags, f.isExtended);
    WaveformBytesLength(p, f);
    BitsOfOctet(p.flags.a);
    BitsOfOctet(p.flags.b);
    if f.isExtended {
      BitsOfOctet(p.flags.c);
    }
    var c := Recut(PointFields(fp, p, f, flags), WaveWidth(f));
    assert c[5] == AngleAndUserData(fp, p, f.isExtended);
    assert f.isExtended ==> c[5][1..] == I16Bytes(p.scanAngle.scaled);
    if f.hasColor {
      ColorReadsBack(p.color.value);
    }
  }

  // Two words of coprime length commute only when they repeat a single byte.

  lemma {:induction false} RotationFixesByte(block: seq<byte>, k: nat)
    requires |block| == 31 && block == block[2..] + block[..2] && k < 31
    ensures block[k] == block[0]
    decreases if k % 2 == 0 then k else 31 + k
  {
    var rotated := block[2..] + block[..2];
    if k >= 2 {
      RotationFixesByte(block, k - 2);
      assert rotated[k - 2] == block[k];
    } else if k == 1 {
      RotationFixesByte(block, 30);
      assert rotated[30] == block[1];
    }
  }

  lemma CommuteOnlyIfConstant(nir: seq<byte>, wave: seq<byte>)
    requires |nir| == 2 && |wave| == 29
    ensures nir + wave == wave + nir <==> AllEqual(nir + wave)
  {
    var block := nir + wave;
    assert block[2..] == wave && block[..2] == nir;
    if block == wave + nir {
      forall k | 0 <= k < 31 ensures block[k] == block[0] {
        RotationFixesByte(block, k);
      }
    }
    if AllEqual(block) {
      assert forall k | 0 <= k < 31 :: (wave + nir)[k] == if k < 29 then block[k + 2] else block[k - 29];
    }
  }

  /** A shaped point is read back as written exactly when its NIR is not `Some(0)` and,
      in a format with both NIR and waveform, all 31 bytes of the two are the same. */
  lemma EncodeThenDecode(fp: Fp, p: RawPoint, f: Format)
    requires Shaped(p, f)
    ensures EncodePoint(fp, p, f).Ok? && |EncodePoint(fp, p, f).value| == f.Len()
    ensures DecodePoint(EncodePoint(fp, p, f).value, f) == p
            <==> p.nir != Some(0) && OrderBlind(f, OptionalBlock(p, f))
  {
    DecodeOfEncoded(fp, p, f);
    var block, nir, wave := OptionalBlock(p, f), NirBytes(p, f), WaveformBytes(p, f);
    var q := DecodePoint(EncodePoint(fp, p, f).value, f);
    if f.hasWaveform {
      WaveformReadsBack(p.waveform.value);
    }
    if f.hasNir && f.hasWaveform {
      CommuteOnlyIfConstant(nir, wave);
      assert block == block[..29] + block[29..];
      if block == wave + nir {
        assert block[..29] == wave && block[29..] == nir;
      }
      if q == p && p.nir != Some(0) {
        assert Join(WaveformFields(GetWaveform(block[..29]))) == block[..29];
        assert block[..29] == wave;
        assert block[29..] == nir;
      }
    } else if f.hasNir {
      assert block == nir && block[0..] == nir;
    } else if f.hasWaveform {
      assert block == wave && block[..29] == wave;
    }
  }

  /** A record is rewritten byte for byte exactly when the NIR and waveform order cannot be seen. */
  lemma DecodeThenEncode(fp: Fp, s: seq<byte>, f: Format)
    requires |s| == f.Len()
    ensures Shaped(DecodePoint(s, f), f)
    ensures EncodePoint(fp, DecodePoint(s, f), f) == Ok(s) <==> OrderBlind(f, OptionalBlock(DecodePoint(s, f), f))
  {
    ReadWidthsSum(f);
    var c := Split(s, ReadWidths(f));
    FieldsOfRead(fp, c, f);
    JoinSplit(s, ReadWidths(f));
    assert s[..|s|] == s;
    SwappedJoin(c);
    if f.hasNir && f.hasWaveform {
      CommuteOnlyIfConstant(c[10], c[9]);
    } else {
      var a: seq<byte>, b: seq<byte> := c[9], c[10];
      assert a == [] || b == [];
      assert a + b == b + a;
    }
  }

  lemma SwappedJoin(c: seq<seq<byte>>)
    requires |c| == 12
    ensures Join(c[9 := c[10]][10 := c[9]]) == Join(c) <==> c[10] + c[9] == c[9] + c[10]
  {
    var d := c[9 := c[10]][10 := c[9]];
    JoinAround(c);
    JoinAround(d);
    assert d[..9] == c[..9];
    var pre := |Join(c[..9])|;
    var end := pre + |c[9]| + |c[10]|;
    assert Join(c)[pre..end] == c[9] + c[10];
    assert Join(d)[pre..end] == c[10] + c[9];
  }

  lemma FlagsAndAngleOfRead(fp: Fp, c: seq<seq<byte>>, f: Format)
    requires HaveWidths(c, ReadWidths(f))
    ensures |c| == 12
    ensures var p := PointFromFields(c, f);
            p.flags.Stored(f.isExtended) == Ok(c[4]) && AngleAndUserData(fp, p, f.isExtended) == c[5]
  {
    hide Octet, Bits, U16Bytes, U32Bytes, U64Bytes, Join, Sum, Split;
    var p, w := PointFromFields(c, f), ReadWidths(f);
    assert |c[4]| == w[4] && |c[5]| == w[5];
    StoredLength(p.flags, f.isExtended);
    assert c[4] == if f.isExtended then [c[4][0], c[4][1], c[4][2]] else [c[4][0], c[4][1]];
    assert c[5] == if f.isExtended then [c[5][0]] + c[5][1..] else [c[5][0], c[5][1]];
  }

  lemma FieldsOfRead(fp: Fp, c: seq<seq<byte>>, f: Format)
    requires HaveWidths(c, ReadWidths(f))
    ensures |c| == 12 && Shaped(PointFromFields(c, f), f)
    ensures var p := PointFromFields(c, f);
            && p.flags.Stored(f.isExtended) == Ok(c[4])
            && PointFields(fp, p, f, c[4]) == c[9 := c[10]][10 := c[9]]
  {
    FlagsAndAngleOfRead(fp, c, f);
    hide Octet, Bits, U16Bytes, U32Bytes, U64Bytes, Join, Sum, Split, AngleAndUserData;
    var p, w := PointFromFields(c, f), ReadWidths(f);
    assert |c[7]| == w[7] && |c[8]| == w[8] && |c[9]| == w[9] && |c[10]| == w[10];
    assert NirBytes(p, f) == c[10];
    assert WaveformBytes(p, f) == c[9];
  }

  /** Format 10 does lose data: one nonzero NIR byte is enough. */
  lemma Format10CanLoseData(fp: Fp)
    ensures var f := NewFormat(10).value;
            var p := RawPoint(0, 0, 0, 0, ThreeByte(0, 0, 0), Scaled(0), 0, 0, Some(0), Some(Color(0, 0, 0)),
                              Some(DEFAULT_WAVEFORM), Some(1), []);
            && Shaped(p, f)
            && EncodePoint(fp, p, f).Ok? && |EncodePoint(fp, p, f).value| == f.Len()
            && DecodePoint(EncodePoint(fp, p, f).value, f) != p
  {
    var f := NewFormat(10).value;
    var p := RawPoint(0, 0, 0, 0, ThreeByte(0, 0, 0), Scaled(0), 0, 0, Some(0), Some(Color(0, 0, 0)),
                      Some(DEFAULT_WAVEFORM), Some(1), []);
    EncodeThenDecode(fp, p, f);
    var nir := U16Bytes(1);
    assert FromLittleEndian(nir) == nir[0] + 256 * FromLittleEndian(nir[1..]);
    assert FromLittleEndian(nir[1..]) == nir[1] + 256 * FromLittleEndian(nir[1..][1..]);
    assert nir[0] == 1 && nir[1] == 0;
    var block := OptionalBlock(p, f);
    assert block[0] == 1 && block[1] == 0;
  }
}
