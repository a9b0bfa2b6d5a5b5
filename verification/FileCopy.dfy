/** Copying the points of a file: reading them and writing them again under the same format and transforms. */
module FileCopies {
  import opened Wrappers
  import opened Bytes
  import opened Formats
  import opened Transforms
  import opened RawPoints
  import opened PointCodec
  import opened Points
  import opened PointRewrite
  import opened Headers
  import opened Writers
  import opened Readers

  /** A record that survives being copied: a writer takes its point and stores the same bytes. */
  predicate Copyable(fp: Fp, h: Header, record: seq<byte>)
    requires |record| == h.pointFormat.Len()
  {
    var raw := DecodePoint(record, h.pointFormat);
    Rewritable(fp, raw, h.pointFormat, TransformsOf(fp, h)) && (h.pointFormat.hasNir ==> raw.nir.Some?)
  }

  /** The points can all be written, as exactly these bytes. */
  predicate Reproduces(fp: Fp, h: Header, ps: seq<Point>, data: seq<byte>) {
    AllStorable(fp, h, ps) && Body(fp, h, ps) == data
  }

  /** The record at an index of the point data that starts at `start`. */
  function RecordAt(h: Header, s: seq<byte>, start: nat, i: nat): (record: seq<byte>)
    requires start + (i + 1) * h.pointFormat.Len() <= |s|
    ensures |record| == h.pointFormat.Len()
  {
    var n := h.pointFormat.Len();
    NextRecord(i, n);
    s[start + i * n..start + i * n + n]
  }

  predicate AllCopyable(fp: Fp, h: Header, s: seq<byte>, start: nat, count: nat)
    requires Complete(h, s, start) && count <= h.numberOfPoints
  {
    forall i | 0 <= i < count ::
      (RecordsBefore(i + 1, h.numberOfPoints, h.pointFormat.Len()); Copyable(fp, h, RecordAt(h, s, start, i)))
  }

  lemma StoredAgainIff(fp: Fp, h: Header, record: seq<byte>)
    requires |record| == h.pointFormat.Len() && FaithfulF32(fp)
    ensures var p := NewPoint(fp, DecodePoint(record, h.pointFormat), TransformsOf(fp, h));
            Storable(fp, h, p) && StoredRecord(fp, h, p) == record <==> Copyable(fp, h, record)
  {
    hide DecodePoint, NewPoint, TransformsOf, Rewritable, Matches, FaithfulF32, IntoRaw, EncodePoint, Format.Len;
    RewriteIsIdentical(fp, record, h.pointFormat, TransformsOf(fp, h));
    ReadPointMatchesIff(fp, record, h.pointFormat, TransformsOf(fp, h));
  }

  lemma SplitsAtLast(a: seq<byte>, b: seq<byte>, c: seq<byte>, d: seq<byte>)
    requires |a| == |c|
    ensures a + b == c + d <==> a == c && b == d
  {
    if a + b == c + d {
      assert a == (a + b)[..|a|] && c == (c + d)[..|a|];
      assert b == (a + b)[|a|..] && d == (c + d)[|a|..];
    }
  }

  lemma ReproducesOneMore(fp: Fp, h: Header, ps: seq<Point>, p: Point, data: seq<byte>, record: seq<byte>)
    requires |data| == |ps| * h.pointFormat.Len()
    ensures Reproduces(fp, h, ps + [p], data + record)
            <==> Reproduces(fp, h, ps, data) && Storable(fp, h, p) && StoredRecord(fp, h, p) == record
  {
    hide Storable, StoredRecord, Format.Len;
    var all := ps + [p];
    assert all[..|ps|] == ps && all[|ps|] == p;
    assert AllStorable(fp, h, all) <==> AllStorable(fp, h, ps) && Storable(fp, h, p) by {
      if AllStorable(fp, h, all) {
        assert forall i | 0 <= i < |ps| :: all[i] == ps[i];
        assert Storable(fp, h, all[|ps|]);
      }
    }
    if AllStorable(fp, h, all) {
      BodyLength(fp, h, ps);
      SplitsAtLast(Body(fp, h, ps), StoredRecord(fp, h, p), data, record);
    }
  }

  /** Reading the points of a file and writing them again reproduces the point data exactly when every record is
      rewritten as it was and has no NIR of 0. */
  lemma {:induction false} CopyReproducesPointsIff(fp: Fp, h: Header, s: seq<byte>, start: nat, count: nat, size: nat)
    requires FaithfulF32(fp) && Complete(h, s, start) && count <= h.numberOfPoints
    requires size == count * h.pointFormat.Len()
    ensures start + size <= |s|
    ensures Reproduces(fp, h, PointsFrom(fp, h, s, start, count), s[start..start + size])
            <==> AllCopyable(fp, h, s, start, count)
    decreases count
  {
    hide Format.Len, FaithfulF32, Copyable, Storable, StoredRecord, NewPoint, DecodePoint, TransformsOf, Reproduces;
    var n := h.pointFormat.Len();
    RecordsBefore(count, h.numberOfPoints, n);
    if count == 0 {
      NothingToReproduce(fp, h);
      assert s[start..start + size] == [];
    } else {
      var before, m := (count - 1) * n, count - 1;
      NextRecord(m, n);
      CopyReproducesPointsIff(fp, h, s, start, m, before);
      var record := RecordAt(h, s, start, m);
      var data := s[start..start + before];
      assert s[start..start + size] == data + record;
      ReproducesOneMore(fp, h, PointsFrom(fp, h, s, start, m), PointAt(fp, h, s, start, m), data, record);
      StoredAgainIff(fp, h, record);
    }
  }

  lemma NothingToReproduce(fp: Fp, h: Header)
    ensures Reproduces(fp, h, [], [])
  {
  }

  /** In exact arithmetic with non-zero scales a record can be copied exactly when its class is not 28 in the two-byte
      or 12 in the three-byte layout, the order of NIR and waveform cannot be seen, and its NIR is not 0. */
  lemma ExactlyCopyableIff(fp: Fp, h: Header, record: seq<byte>)
    requires |record| == h.pointFormat.Len()
    requires ExactRounding(fp) && (forall x: real :: fp.rnd32(x) == x)
    requires var t := TransformsOf(fp, h); t.x.scale != 0.0 && t.y.scale != 0.0 && t.z.scale != 0.0
    ensures var raw, f := DecodePoint(record, h.pointFormat), h.pointFormat;
            Copyable(fp, h, record)
            <==> ClassSurvives(raw.flags) && OrderBlind(f, OptionalBlock(raw, f)) && (f.hasNir ==> raw.nir.Some?)
  {
    hide DecodePoint, TransformsOf, Rewritable, Rewrite, OptionalBlock, OrderBlind, ClassSurvives;
    ExactRewriteIsIdentical(fp, record, h.pointFormat, TransformsOf(fp, h));
    RewriteIsIdentical(fp, record, h.pointFormat, TransformsOf(fp, h));
  }
}
