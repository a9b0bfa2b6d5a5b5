/** The header as an object: the fields that its methods update in place. */
module HeaderObjects {
  import opened Wrappers
  import opened Bytes
  import opened Versions
  import opened Transforms
  import opened BoundingBoxes
  import opened VariableRecords
  import opened Points
  import opened Headers
  import opened CrsRecords

  class HeaderObject {
    /** Supplies the fields that no method changes. */
    const fixed: Header
    var bounds: Bounds
    var evlrs: seq<Vlr>
    var hasWktCrs: bool
    var numberOfPoints: u64
    var byReturn: map<u8, u64>
    var startOfFirstEvlr: Option<u64>
    var vlrs: seq<Vlr>

    function Value(): Header
      reads this
    {
      fixed.(bounds := bounds, evlrs := evlrs, hasWktCrs := hasWktCrs, numberOfPoints := numberOfPoints,
             byReturn := byReturn, startOfFirstEvlr := startOfFirstEvlr, vlrs := vlrs)
    }

    constructor (h: Header)
      ensures Value() == h
    {
      fixed := h;
      bounds, evlrs, hasWktCrs, numberOfPoints := h.bounds, h.evlrs, h.hasWktCrs, h.numberOfPoints;
      byReturn, startOfFirstEvlr, vlrs := h.byReturn, h.startOfFirstEvlr, h.vlrs;
    }

    method Clear()
      modifies this
      ensures Value() == Cleared(old(Value()))
    {
      numberOfPoints := 0;
      byReturn := map[];
      bounds := EMPTY_BOUNDS;
    }

    /** The six comparisons of `grow`. */
    method GrowBounds(p: Vector<real>)
      modifies this`bounds
      ensures bounds == Grow(old(bounds), p)
    {
      if Below(Fin(p.x), bounds.min.x) { bounds := bounds.(min := bounds.min.(x := Fin(p.x))); }
      if Below(Fin(p.y), bounds.min.y) { bounds := bounds.(min := bounds.min.(y := Fin(p.y))); }
      if Below(Fin(p.z), bounds.min.z) { bounds := bounds.(min := bounds.min.(z := Fin(p.z))); }
      if Below(bounds.max.x, Fin(p.x)) { bounds := bounds.(max := bounds.max.(x := Fin(p.x))); }
      if Below(bounds.max.y, Fin(p.y)) { bounds := bounds.(max := bounds.max.(y := Fin(p.y))); }
      if Below(bounds.max.z, Fin(p.z)) { bounds := bounds.(max := bounds.max.(z := Fin(p.z))); }
    }

    method AddPoint(p: Point)
      modifies this
      ensures Value() == Added(old(Value()), p)
    {
      numberOfPoints := Successor(numberOfPoints);
      var k := Octet(p.returnNumber);
      if k > 0 {
        if k !in byReturn {
          byReturn := byReturn[k := 0];
        }
        byReturn := byReturn[k := Successor(byReturn[k])];
      }
      GrowBounds(Vector(p.x, p.y, p.z));
    }

    method SetStartOfFirstEvlr(start: u64)
      modifies this
      ensures Value() == old(Value()).(startOfFirstEvlr := Some(start))
    {
      startOfFirstEvlr := Some(start);
    }

    method RemoveCrsVlrs()
      modifies this
      ensures Value() == WithoutCrs(old(Value()))
      ensures KeepsOthers(old(vlrs), vlrs) && KeepsOthers(old(evlrs), evlrs) && !hasWktCrs
    {
      RemovingDropsExactlyCrs(Value());
      vlrs := Filter(vlrs);
      evlrs := Filter(evlrs);
      hasWktCrs := false;
    }

    method SetWktCrs(bytes: seq<byte>) returns (r: Result<()>)
      modifies this
      ensures r.Ok? <==> WithWktCrs(old(Value()), bytes).Ok?
      ensures r.Ok? ==> Value() == WithWktCrs(old(Value()), bytes).value
      ensures r.Err? ==> r.error == WithWktCrs(old(Value()), bytes).error && Value() == old(Value())
      ensures r == Err(HeaderContainsCrsVlr)
              <==> Version(1, 4).AtMost(fixed.version) && exists v | v in old(vlrs + evlrs) :: DescribesCrs(v)
    {
      hide DescribesCrs, WktVlr, IsProjection;
      HasProjectionIff(vlrs + evlrs);
      if !Version(1, 4).AtMost(fixed.version) {
        return Err(UnsupportedFeature);
      }
      var all := vlrs + evlrs;
      for i := 0 to |all|
        invariant forall j | 0 <= j < i :: !IsProjection(all[j])
        invariant Value() == old(Value())
      {
        if IsProjection(all[i]) {
          return Err(HeaderContainsCrsVlr);
        }
      }
      if |bytes| > U16_MAX {
        evlrs := evlrs + [WktVlr(bytes)];
      } else {
        vlrs := vlrs + [WktVlr(bytes)];
      }
      hasWktCrs := true;
      return Ok(());
    }

    static method Filter(vs: seq<Vlr>) returns (kept: seq<Vlr>)
      ensures kept == WithoutProjections(vs)
    {
      kept := [];
      assert vs[..0] == [];
      for i := 0 to |vs|
        invariant kept == WithoutProjections(vs[..i])
      {
        RemovalAppends(vs[..i], [vs[i]]);
        assert vs[..i] + [vs[i]] == vs[..i + 1];
        if !IsProjection(vs[i]) {
          kept := kept + [vs[i]];
        }
      }
      assert vs[..|vs|] == vs;
    }
  }
}
