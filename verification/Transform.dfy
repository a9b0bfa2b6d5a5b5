/** Coordinates: floating point, scale-and-offset transforms and their rounding. */
module Transforms {
  import opened Wrappers

  /** An `f64` that may be infinite, as the bounds of an empty header are. */
  datatype Ext = NegInf | Fin(r: real) | PosInf

  /** Floating point as the file layer sees it, left arbitrary: how a real result
      is rounded to an `f64` or an `f32`, and what the 64-bit words of the file mean.
      Theorems hold for every such arithmetic, or name what they need of it. */
  datatype Fp = Fp(
    rnd64: real -> real,
    rnd32: real -> real,
    enc: Ext -> u64,
    dec: u64 -> Ext,
    val: u64 -> real)

  /** Rounding never reorders two reals. IEEE rounding satisfies this. */
  ghost predicate MonotoneRounding(fp: Fp) {
    forall x: real, y: real {:trigger fp.rnd64(x), fp.rnd64(y)} :: x <= y ==> fp.rnd64(x) <= fp.rnd64(y)
  }

  /** Real arithmetic without rounding. */
  ghost predicate ExactRounding(fp: Fp) {
    forall x: real :: fp.rnd64(x) == x
  }

  datatype RoundingMode = Round | Ceil | Floor

  datatype Transform = Transform(scale: real, offset: real)

  datatype Vector<+T> = Vector(x: T, y: T, z: T)

  /** Round half away from zero, as `f64::round` does. */
  function RoundHalfAway(x: real): int {
    if x >= 0.0 then (x + 0.5).Floor else -(0.5 - x).Floor
  }

  function RoundBy(x: real, mode: RoundingMode): int {
    match mode
    case Round => RoundHalfAway(x)
    case Ceil => -(-x).Floor
    case Floor => x.Floor
  }

  /** The distance of a stored integer from the offset. */
  function Distance(scale: real, n: i32): real {
    scale * n as real
  }

  function Direct(fp: Fp, t: Transform, n: i32): real {
    fp.rnd64(fp.rnd64(Distance(t.scale, n)) + t.offset)
  }

  function Quotient(fp: Fp, t: Transform, x: real): real
    requires t.scale != 0.0
  {
    fp.rnd64(fp.rnd64(x - t.offset) / t.scale)
  }

  /** Division by a zero scale gives NaN, which casts to 0, or an infinity, which is out of range. */
  function InverseWithRoundingMode(fp: Fp, t: Transform, x: real, mode: RoundingMode): Result<i32> {
    if t.scale == 0.0 then
      if fp.rnd64(x - t.offset) == 0.0 then Ok(0) else Err(InvalidInverseTransform)
    else
      var n := RoundBy(Quotient(fp, t, x), mode);
      if n > 0x7FFF_FFFF || n < -0x8000_0000 then Err(InvalidInverseTransform) else Ok(n)
  }

  function Inverse(fp: Fp, t: Transform, x: real): Result<i32> {
    InverseWithRoundingMode(fp, t, x, Round)
  }

  /** A coordinate whose nearest integer has 32 bits; with a zero scale, only the offset itself. */
  predicate CoordinateFits(fp: Fp, t: Transform, x: real) {
    if t.scale == 0.0 then fp.rnd64(x - t.offset) == 0.0
    else -2147483648.5 < Quotient(fp, t, x) < 2147483647.5
  }

  lemma InverseSucceedsIff(fp: Fp, t: Transform, x: real)
    ensures Inverse(fp, t, x).Ok? <==> CoordinateFits(fp, t, x)
    ensures forall mode :: InverseWithRoundingMode(fp, t, x, mode).Err? ==>
                             InverseWithRoundingMode(fp, t, x, mode) == Err(InvalidInverseTransform)
  {
  }

  /** Rounding goes to a nearest integer, and a tie goes away from zero. */
  lemma RoundsToNearest(x: real)
    ensures var n := RoundBy(x, Round) as real;
            && x - 0.5 <= n <= x + 0.5
            && (n == x + 0.5 ==> x > 0.0)
            && (n == x - 0.5 ==> x < 0.0)
  {
  }

  /** A stored integer is nearest to the quotient, both of whose operations are rounded, away from zero in a tie; with
      a zero scale it is zero. */
  lemma InverseIsNearest(fp: Fp, t: Transform, x: real)
    requires Inverse(fp, t, x).Ok?
    ensures var n := Inverse(fp, t, x).value as real;
            if t.scale == 0.0 then n == 0.0
            else
              var q := fp.rnd64(fp.rnd64(x - t.offset) / t.scale);
              q - 0.5 <= n <= q + 0.5 && (n == q + 0.5 ==> q > 0.0) && (n == q - 0.5 ==> q < 0.0)
  {
    if t.scale != 0.0 {
      RoundsToNearest(Quotient(fp, t, x));
    }
  }

  lemma InverseIsNearQuotient(fp: Fp, t: Transform, x: real)
    requires t.scale != 0.0 && Inverse(fp, t, x).Ok?
    ensures Quotient(fp, t, x) - 0.5 <= Inverse(fp, t, x).value as real <= Quotient(fp, t, x) + 0.5
  {
    hide Quotient;
    RoundsToNearest(Quotient(fp, t, x));
  }

  lemma RoundByIsMonotone(x: real, y: real)
    requires x <= y
    ensures RoundBy(x, Floor) <= RoundBy(x, Round) <= RoundBy(x, Ceil)
    ensures forall mode :: RoundBy(x, mode) <= RoundBy(y, mode)
    ensures x - 1.0 < RoundBy(x, Floor) as real <= x <= RoundBy(x, Ceil) as real < x + 1.0
  {
  }

  lemma FactorOrders(p: real, q: real, c: real)
    requires c != 0.0 && p * c <= q * c
    ensures if c > 0.0 then p <= q else q <= p
  {
    assert (q - p) * c >= 0.0;
  }

  lemma DivisionOrders(a: real, b: real, c: real)
    requires c != 0.0 && a <= b
    ensures if c > 0.0 then a / c <= b / c else b / c <= a / c
  {
    assert a / c * c == a && b / c * c == b;
    FactorOrders(a / c, b / c, c);
  }

  /** The division keeps the order of coordinates, or reverses it for a negative scale. */
  lemma QuotientsAreOrdered(fp: Fp, t: Transform, x: real, y: real)
    requires MonotoneRounding(fp) && t.scale != 0.0 && x <= y
    ensures if t.scale > 0.0 then Quotient(fp, t, x) <= Quotient(fp, t, y) else Quotient(fp, t, y) <= Quotient(fp, t, x)
  {
    DivisionOrders(fp.rnd64(x - t.offset), fp.rnd64(y - t.offset), t.scale);
  }

  /** Rounding outwards at both ends encloses the nearest rounding of everything between. */
  lemma RoundedQuotientsAreOrdered(fp: Fp, t: Transform, lo: real, x: real, hi: real)
    requires MonotoneRounding(fp) && t.scale > 0.0 && lo <= x <= hi
    ensures RoundBy(Quotient(fp, t, lo), Floor) <= RoundBy(Quotient(fp, t, x), Round)
         <= RoundBy(Quotient(fp, t, hi), Ceil)
  {
    QuotientsAreOrdered(fp, t, lo, x);
    QuotientsAreOrdered(fp, t, x, hi);
    var a, b, c := Quotient(fp, t, lo), Quotient(fp, t, x), Quotient(fp, t, hi);
    assert a <= b <= c;
    RoundByIsMonotone(a, b);
    RoundByIsMonotone(b, c);
  }

  lemma DistanceIsMonotone(scale: real, n: i32, m: i32)
    requires scale > 0.0 && n <= m
    ensures Distance(scale, n) <= Distance(scale, m)
  {
    assert scale * (m as real - n as real) >= 0.0;
  }

  lemma RoundedSumOrders(fp: Fp, p: real, q: real, offset: real)
    requires MonotoneRounding(fp) && p <= q
    ensures fp.rnd64(fp.rnd64(p) + offset) <= fp.rnd64(fp.rnd64(q) + offset)
  {
    assert fp.rnd64(p) <= fp.rnd64(q);
  }

  lemma DirectIsMonotone(fp: Fp, t: Transform, n: i32, m: i32)
    requires MonotoneRounding(fp) && t.scale > 0.0 && n <= m
    ensures Direct(fp, t, n) <= Direct(fp, t, m)
  {
    hide MonotoneRounding, Distance;
    DistanceIsMonotone(t.scale, n, m);
    RoundedSumOrders(fp, Distance(t.scale, n), Distance(t.scale, m), t.offset);
  }

  lemma ExactQuotient(fp: Fp, t: Transform, x: real)
    requires ExactRounding(fp) && t.scale != 0.0
    ensures Quotient(fp, t, x) * t.scale == x - t.offset
  {
    var d := x - t.offset;
    assert d / t.scale * t.scale == d;
  }

  lemma ExactDirect(fp: Fp, t: Transform, n: i32)
    requires ExactRounding(fp)
    ensures Direct(fp, t, n) == t.scale * n as real + t.offset
  {
  }

  /** Without rounding, every stored integer survives a trip through its coordinate. */
  lemma ExactInverseOfDirect(fp: Fp, t: Transform, n: i32)
    requires ExactRounding(fp) && t.scale != 0.0
    ensures Inverse(fp, t, Direct(fp, t, n)) == Ok(n)
  {
    hide Direct, Quotient, RoundBy;
    ExactQuotientOfDirect(fp, t, n);
    IntegersAreRounded(n);
  }

  lemma ExactQuotientOfDirect(fp: Fp, t: Transform, n: i32)
    requires ExactRounding(fp) && t.scale != 0.0
    ensures Quotient(fp, t, Direct(fp, t, n)) == n as real
  {
    hide Direct, Quotient;
    ExactDirect(fp, t, n);
    ExactQuotient(fp, t, Direct(fp, t, n));
    FactorCancels(Quotient(fp, t, Direct(fp, t, n)), n as real, t.scale);
  }

  lemma IntegersAreRounded(n: int)
    ensures RoundBy(n as real, Round) == n
  {
  }

  lemma FactorCancels(a: real, b: real, c: real)
    requires a * c == c * b && c != 0.0
    ensures a == b
  {
    assert (a - b) * c == 0.0;
  }
}
