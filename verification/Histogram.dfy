/** The per-return histogram and the point count through the legacy and the 64-bit fields. */
module Histograms {
  import opened Wrappers
  import opened Versions
  import RawHeaders
  import opened Headers
  import opened Builders

  /** Filling the five legacy counts, visiting the entries of the hash map in any order. */
  method FillLegacyCounts(m: map<u8, u64>, v: Version) returns (r: Result<seq<u32>>)
    ensures r.Ok? <==> LegacyFits(m, v)
    ensures r.Ok? ==> r.value == LegacyCounts(m)
    ensures r.Err? ==> exists k | k in m :: LegacyError(m, v, k) == Some(r.error)
  {
    var counts: seq<u32> := [0, 0, 0, 0, 0];
    var left := m.Keys;
    while left != {}
      invariant left <= m.Keys && |counts| == 5
      invariant forall k | k in m && k !in left :: LegacyError(m, v, k).None?
      invariant forall i | 0 <= i < 5 ::
                  counts[i] == if i + 1 in m && i + 1 !in left && m[i + 1] <= U32_MAX then m[i + 1] else 0
      decreases left
    {
      var k: u8 :| k in left;
      if k > 5 {
        if !v.Supports(LargeFiles) {
          assert LegacyError(m, v, k) == Some(InvalidReturnNumber(k));
          return Err(InvalidReturnNumber(k));
        }
      } else if k > 0 {
        if m[k] > U32_MAX {
          if !v.Supports(LargeFiles) {
            assert LegacyError(m, v, k) == Some(TooManyPoints(m[k]));
            return Err(TooManyPoints(m[k]));
          }
        } else {
          counts := counts[k - 1 := m[k]];
        }
      }
      left := left - {k};
    }
    return Ok(counts);
  }

  /** Filling the fifteen 64-bit counts. */
  method FillLargeCounts(m: map<u8, u64>) returns (r: Result<seq<u64>>)
    ensures r.Ok? <==> forall k | k in m :: k <= 15
    ensures r.Ok? ==> r.value == LargeCounts(m)
    ensures r.Err? ==> exists k | k in m :: k > 15 && r.error == InvalidReturnNumber(k)
  {
    var counts: seq<u64> := [0, 0, 0, 0, 0, 0, 0, 0, 0, 0, 0, 0, 0, 0, 0];
    var left := m.Keys;
    while left != {}
      invariant left <= m.Keys && |counts| == 15
      invariant forall k | k in m && k !in left :: k <= 15
      invariant forall i | 0 <= i < 15 :: counts[i] == if i + 1 in m && i + 1 !in left then m[i + 1] else 0
      decreases left
    {
      var k: u8 :| k in left;
      if k > 15 {
        return Err(InvalidReturnNumber(k));
      } else if k > 0 {
        counts := counts[k - 1 := m[k]];
      }
      left := left - {k};
    }
    return Ok(counts);
  }

  /** The histogram a reader makes of what a writer stored. */
  function HistogramBack(m: map<u8, u64>, v: Version): map<u8, u64> {
    if exists n | n in LegacyCounts(m) :: n > 0 then HistogramOf(LegacyCounts(m))
    else if v.Supports(LargeFiles) then HistogramOf(LargeCounts(m))
    else map[]
  }

  /** Every entry can be represented by the legacy counts. */
  predicate AllLegacy(m: map<u8, u64>) {
    forall k | k in m :: k <= 5 && m[k] <= U32_MAX
  }

  /** No entry shows in the legacy counts. */
  predicate NoneLegacy(m: map<u8, u64>) {
    forall k | k in m :: k <= 5 ==> m[k] > U32_MAX
  }

  predicate Positive(m: map<u8, u64>) {
    forall k | k in m :: k > 0 && m[k] > 0
  }

  lemma LegacyEntry(m: map<u8, u64>, k: u8)
    ensures k in HistogramOf(LegacyCounts(m)) <==> 1 <= k <= 5 && k in m && 0 < m[k] <= U32_MAX
    ensures k in HistogramOf(LegacyCounts(m)) ==> HistogramOf(LegacyCounts(m))[k] == m[k]
  {
  }

  lemma LargeEntry(m: map<u8, u64>, k: u8)
    ensures k in HistogramOf(LargeCounts(m)) <==> 1 <= k <= 15 && k in m && 0 < m[k]
    ensures k in HistogramOf(LargeCounts(m)) ==> HistogramOf(LargeCounts(m))[k] == m[k]
  {
  }

  lemma LegacyShows(m: map<u8, u64>)
    ensures (exists n | n in LegacyCounts(m) :: n > 0) <==> exists k: u8 :: k in HistogramOf(LegacyCounts(m))
  {
    var counts := LegacyCounts(m);
    if n :| n in counts && n > 0 {
      var i :| 0 <= i < 5 && counts[i] == n;
      assert HasCount(counts, i + 1);
      assert i + 1 in HistogramOf(counts);
    }
    if k: u8 :| k in HistogramOf(counts) {
      assert HasCount(counts, k);
      assert counts[k - 1] in counts;
    }
  }

  /** A histogram that can be written is read back unchanged exactly when its entries are positive and,
      where the 64-bit fields exist, either all entries are legacy ones or none is. */
  lemma HistogramSurvivesIff(m: map<u8, u64>, v: Version)
    requires LegacyFits(m, v) && forall k | k in m :: k <= 15
    ensures HistogramBack(m, v) == m <==> Positive(m) && (v.Supports(LargeFiles) ==> AllLegacy(m) || NoneLegacy(m))
  {
    hide HistogramOf, LegacyCounts, LargeCounts;
    LegacyShows(m);
    var legacy, large := HistogramOf(LegacyCounts(m)), HistogramOf(LargeCounts(m));
    forall k: u8
      ensures k in legacy <==> 1 <= k <= 5 && k in m && 0 < m[k] <= U32_MAX
      ensures k in legacy ==> legacy[k] == m[k]
    {
      LegacyEntry(m, k);
    }
    forall k: u8
      ensures k in large <==> 1 <= k <= 15 && k in m && 0 < m[k]
      ensures k in large ==> large[k] == m[k]
    {
      LargeEntry(m, k);
    }
    if Positive(m) {
      if AllLegacy(m) {
        assert legacy == m;
      }
      if NoneLegacy(m) {
        assert forall k: u8 :: k !in legacy;
        assert large == m;
      }
      if !v.Supports(LargeFiles) {
        assert forall k | k in m :: LegacyError(m, v, k).None?;
      }
    }
    if HistogramBack(m, v) == m && v.Supports(LargeFiles) && !NoneLegacy(m) {
      var k :| k in m && k <= 5 && m[k] <= U32_MAX;
      assert k in legacy;
      assert legacy == m;
      assert forall j | j in m :: j in legacy;
    }
  }

  /** The total number of points always survives. */
  lemma PointCountSurvives(h: Header, raw: RawHeaders.RawHeader)
    requires NumberOfPointsRaw(h) == Ok(raw.layout.numberOfPointRecords) && raw.Version() == h.version
    requires raw.largeFile.Some? && raw.largeFile.value.numberOfPointRecords == h.numberOfPoints
    ensures PointsFromRaw(RawHeaders.Canonical(raw)) == h.numberOfPoints
    ensures RawHeaders.Canonical(raw).NumberOfPointRecords() == h.numberOfPoints
  {
  }

  /** Entries are lost when legacy and other returns are mixed, as in any file with both first and sixth returns. */
  lemma MixedHistogramIsLost()
    ensures var m: map<u8, u64> := map[1 := 1, 6 := 1];
            LegacyFits(m, Version(1, 4)) && HistogramBack(m, Version(1, 4)) != m
  {
    var m: map<u8, u64> := map[1 := 1, 6 := 1];
    HistogramSurvivesIff(m, Version(1, 4));
    assert 6 in m && 1 in m;
  }
}
