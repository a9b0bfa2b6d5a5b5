/** The backwards scan for EPSG codes in WKT bytes. */
module WktScan {
  import opened Wrappers
  import opened Bytes
  import opened Utf8

  /** "VERT". */
  const VERT: seq<byte> := [0x56, 0x45, 0x52, 0x54]

  datatype Epsg = Epsg(horizontal: u16, vertical: Option<u16>)

  /** The result of 16-bit arithmetic that may overflow. */
  datatype Checked = Code(value: u16) | Overflow

  predicate IsDigit(b: byte) {
    48 <= b <= 57
  }

  function Pow10(n: nat): (p: nat)
    ensures p > 0
  {
    if n == 0 then 1 else 10 * Pow10(n - 1)
  }

  /** One step of the accumulation, `code += 10.pow(power) * digit` in `u16`. */
  function Accumulate(code: u16, power: nat, b: byte): Checked
    requires IsDigit(b)
  {
    var n := code + Pow10(power) * (b - 48);
    if Pow10(power) > U16_MAX || n > U16_MAX || n < 0 then Overflow else Code(n)
  }

  /** The scan from the end of what is left of a piece, at the `i`th byte from its end. */
  function Scan(piece: seq<byte>, i: nat, started: bool, power: nat, code: u16): Checked {
    if piece == [] then Code(code)
    else
      var b, rest := piece[|piece| - 1], piece[..|piece| - 1];
      if IsDigit(b) then
        match Accumulate(code, power, b)
        case Overflow => Overflow
        case Code(n) => if i > 7 then Code(n) else Scan(rest, i + 1, true, power + 1, n)
      else if started || i > 7 then Code(code)
      else Scan(rest, i + 1, false, power, code)
  }

  /** The loop over the bytes of a piece, last to first. */
  method ScanPiece(piece: seq<byte>) returns (r: Checked)
    ensures r == Scan(piece, 0, false, 0, 0)
  {
    var code: u16, started, power := 0, false, 0;
    var i := 0;
    assert piece[..|piece|] == piece;
    while i < |piece|
      invariant i <= |piece|
      invariant Scan(piece, 0, false, 0, 0) == Scan(piece[..|piece| - i], i, started, power, code)
    {
      var b := piece[|piece| - 1 - i];
      ghost var left := piece[..|piece| - i];
      assert left[|left| - 1] == b && left[..|left| - 1] == piece[..|piece| - (i + 1)];
      if IsDigit(b) {
        started := true;
        match Accumulate(code, power, b) {
          case Overflow => return Overflow;
          case Code(n) => code := n;
        }
        power := power + 1;
      } else if started {
        break;
      }
      if i > 7 {
        break;
      }
      i := i + 1;
    }
    return Code(code);
  }

  /** The decimal digits of a number, as printing gives them. */
  function Decimal(n: nat): (s: seq<byte>)
    ensures |s| > 0 && forall i :: 0 <= i < |s| ==> IsDigit(s[i])
  {
    if n < 10 then [48 + n] else Decimal(n / 10) + [48 + n % 10]
  }

  lemma ScanStops(pre: seq<byte>, i: nat, power: nat, code: u16)
    requires pre == [] || !IsDigit(pre[|pre| - 1])
    ensures Scan(pre, i, true, power, code) == Code(code)
  {
  }

  /** None of the bytes is one of the characters "0" to "9". */
  predicate NoDigits(s: seq<byte>) {
    forall i :: 0 <= i < |s| ==> !(0x30 <= s[i] <= 0x39)
  }

  lemma {:induction false} ScanSkipsSuffix(s: seq<byte>, suffix: seq<byte>, i: nat)
    requires NoDigits(suffix) && i + |suffix| <= 8
    ensures Scan(s + suffix, i, false, 0, 0) == Scan(s, i + |suffix|, false, 0, 0)
    decreases |suffix|
  {
    if suffix == [] {
      assert s + suffix == s;
    } else {
      var n := |suffix| - 1;
      assert (s + suffix)[..|s + suffix| - 1] == s + suffix[..n];
      ScanSkipsSuffix(s, suffix[..n], i + 1);
    }
  }

  /** The code stands between `pre` and a short suffix without digits, and the scan cannot run past it. */
  predicate CodeBetween(piece: seq<byte>, pre: seq<byte>, code: u16, suffix: seq<byte>) {
    && piece == pre + Decimal(code) + suffix
    && NoDigits(suffix) && |suffix| + |Decimal(code)| <= 9
    && (pre == [] || !IsDigit(pre[|pre| - 1]) || |suffix| + |Decimal(code)| == 9)
  }

  ghost predicate EndsInCode(piece: seq<byte>, code: u16) {
    exists pre: seq<byte>, suffix: seq<byte> :: CodeBetween(piece, pre, code, suffix)
  }

  lemma ScanOfCode(piece: seq<byte>, pre: seq<byte>, code: u16, suffix: seq<byte>)
    requires code > 0 && CodeBetween(piece, pre, code, suffix)
    ensures Scan(piece, 0, false, 0, 0) == Code(code)
  {
    hide Scan, NoDigits, Decimal, NumberOf;
    ScanSkipsSuffix(pre + Decimal(code), suffix, 0);
    ScanOfRun(pre, Decimal(code), |suffix|, false, 0, 0);
    NumberOfDecimal(code);
    ShortDecimal(code);
    assert Pow10(0) == 1;
  }

  /** The scan inverts decimal printing for every code, without overflow. */
  lemma ScanFindsCode(piece: seq<byte>, code: u16)
    requires code > 0 && EndsInCode(piece, code)
    ensures Scan(piece, 0, false, 0, 0) == Code(code)
  {
    hide Scan, CodeBetween;
    var pre, suffix :| CodeBetween(piece, pre, code, suffix);
    ScanOfCode(piece, pre, code, suffix);
  }

  /** The first position of "VERT" from `i` on. */
  function FindVert(s: seq<byte>, i: nat): (r: Option<nat>)
    ensures r.Some? ==> r.value + 4 <= |s|
    decreases |s| - i
  {
    if i + 4 > |s| then None else if At(s, i, VERT) then Some(i) else FindVert(s, i + 1)
  }

  lemma {:induction false} FindVertFindsFirst(s: seq<byte>, i: nat, at: nat)
    requires i <= at && At(s, at, VERT) && forall j | i <= j < at :: !At(s, j, VERT)
    ensures FindVert(s, i) == Some(at)
    decreases at - i
  {
    if i < at {
      FindVertFindsFirst(s, i + 1, at);
    }
  }

  lemma {:induction false} FindVertFindsNone(s: seq<byte>, i: nat)
    requires forall j: nat :: !At(s, j, VERT)
    ensures FindVert(s, i) == None
    decreases |s| - i
  {
    if i + 4 <= |s| {
      FindVertFindsNone(s, i + 1);
    }
  }

  /** The codes of the pieces before and after the first "VERT" of a text. Overflow stops the program. */
  function EpsgOfText(s: seq<byte>): Option<Result<Epsg>> {
    var at := FindVert(s, 0);
    var horizontal := Scan(if at.Some? then s[..at.value] else s, 0, false, 0, 0);
    var vertical := if at.Some? then Scan(s[at.value + 4..], 0, false, 0, 0) else Code(0);
    if horizontal.Overflow? || vertical.Overflow? then None
    else if horizontal.value == 0 then Some(Err(UnreadableWktCrs))
    else Some(Ok(Epsg(horizontal.value, if vertical.value == 0 then None else Some(vertical.value))))
  }

  /** The bytes are made a text first. */
  function EpsgOfWkt(bytes: seq<byte>): Option<Result<Epsg>> {
    EpsgOfText(Lossy(bytes))
  }

  /** The loop over the one or two pieces. */
  method FindEpsg(bytes: seq<byte>) returns (r: Option<Result<Epsg>>)
    ensures r == EpsgOfWkt(bytes)
  {
    hide Lossy;
    var s := Lossy(bytes);
    var at := FindVert(s, 0);
    var pieces := if at.Some? then [s[..at.value], s[at.value + 4..]] else [s];
    var codes: seq<u16> := [0, 0];
    for i := 0 to |pieces|
      invariant |codes| == 2
      invariant forall j | 0 <= j < |pieces| && j < i :: Scan(pieces[j], 0, false, 0, 0) == Code(codes[j])
      invariant forall j | i <= j < 2 :: codes[j] == 0
    {
      var code := ScanPiece(pieces[i]);
      if code.Overflow? {
        return None;
      }
      codes := codes[i := code.value];
    }
    assert Scan(pieces[0], 0, false, 0, 0) == Code(codes[0]);
    assert at.Some? ==> Scan(pieces[1], 0, false, 0, 0) == Code(codes[1]);
    if codes[0] == 0 {
      return Some(Err(UnreadableWktCrs));
    }
    return Some(Ok(Epsg(codes[0], if codes[1] == 0 then None else Some(codes[1]))));
  }

  /** The horizontal code is found when the text has no "VERT". */
  lemma HorizontalCodeIsFound(bytes: seq<byte>, code: u16)
    requires code > 0 && EndsInCode(Lossy(bytes), code) && forall j: nat :: !At(Lossy(bytes), j, VERT)
    ensures EpsgOfWkt(bytes) == Some(Ok(Epsg(code, None)))
  {
    hide Lossy, EndsInCode, Scan;
    FindVertFindsNone(Lossy(bytes), 0);
    ScanFindsCode(Lossy(bytes), code);
  }

  /** Both codes are found when the text splits at "VERT". */
  lemma BothCodesAreFound(bytes: seq<byte>, h: seq<byte>, v: seq<byte>, horizontal: u16, vertical: u16)
    requires horizontal > 0 && vertical > 0 && EndsInCode(h, horizontal) && EndsInCode(v, vertical)
    requires Lossy(bytes) == h + VERT + v && forall j | 0 <= j < |h| :: !At(Lossy(bytes), j, VERT)
    ensures EpsgOfWkt(bytes) == Some(Ok(Epsg(horizontal, Some(vertical))))
  {
    hide Lossy, Scan, EndsInCode, FindVert;
    var s := Lossy(bytes);
    assert At(s, |h|, VERT);
    FindVertFindsFirst(s, 0, |h|);
    assert s[..|h|] == h && s[|h| + 4..] == v;
    ScanFindsCode(h, horizontal);
    ScanFindsCode(v, vertical);
  }

  // What the scan finds in any text

  predicate AllDigits(s: seq<byte>) {
    forall i :: 0 <= i < |s| ==> 0x30 <= s[i] <= 0x39
  }

  /** The number that digits stand for. */
  function NumberOf(run: seq<byte>): nat
    requires AllDigits(run)
  {
    if run == [] then 0 else 10 * NumberOf(run[..|run| - 1]) + (run[|run| - 1] - 48)
  }

  /** A 16-bit accumulator can hold the digits: there are at most five and their number has 16 bits. */
  predicate RunFits(run: seq<byte>)
    requires AllDigits(run)
  {
    |run| <= 5 && NumberOf(run) <= 65535
  }

  /** The last nine bytes, or all if there are fewer. */
  function Window(piece: seq<byte>): seq<byte> {
    if |piece| <= 9 then piece else piece[|piece| - 9..]
  }

  /** The last digits in the window, and what stands around them there. */
  predicate LastRun(piece: seq<byte>, pre: seq<byte>, run: seq<byte>, suffix: seq<byte>) {
    && Window(piece) == pre + run + suffix
    && AllDigits(run) && NoDigits(suffix)
    && (run == [] ==> pre == [])
    && (pre != [] ==> !(0x30 <= pre[|pre| - 1] <= 0x39))
  }

  lemma {:induction false} PowersOfTen(n: nat)
    ensures n <= 4 ==> Pow10(n) <= 10000
    ensures n >= 5 ==> Pow10(n) >= 100000
    ensures Pow10(4) == 10000
  {
    assert Pow10(1) == 10;
    assert Pow10(2) == 100;
    assert Pow10(3) == 1000;
    assert Pow10(4) == 10000;
    if n > 5 {
      PowersOfTen(n - 1);
    }
  }

  lemma RunStep(code: nat, p: nat, rest: nat, d: nat)
    ensures code + p * (10 * rest + d) == code + p * d + 10 * p * rest
    ensures 0 <= p * d && 0 <= 10 * p * rest
  {
  }

  lemma NumberStep(run: seq<byte>)
    requires AllDigits(run) && run != []
    ensures var front, last := run[..|run| - 1], run[|run| - 1];
            AllDigits(front) && IsDigit(last) && NumberOf(run) == 10 * NumberOf(front) + (last - 48)
  {
  }

  /** The scan of a run of digits, from its last digit on. */
  lemma {:induction false} ScanOfRun(rest: seq<byte>, run: seq<byte>, i: nat, started: bool, power: nat, code: u16)
    requires AllDigits(run) && run != [] && i + |run| <= 9
    requires rest == [] || !IsDigit(rest[|rest| - 1]) || i + |run| == 9
    ensures var n := code + Pow10(power) * NumberOf(run);
            Scan(rest + run, i, started, power, code)
            == if power + |run| <= 5 && n <= 65535 then Code(n) else Overflow
    decreases |run|
  {
    hide Scan, Pow10, NumberOf, AllDigits;
    NumberStep(run);
    var last, front := run[|run| - 1], run[..|run| - 1];
    var d, p := last - 48, Pow10(power);
    PowersOfTen(power);
    RunStep(code, p, NumberOf(front), d);
    assert rest + run == (rest + front) + [last];
    ScanOfLast(rest + front, last, i, started, power, code);
    if power <= 4 && code + p * d <= 65535 {
      if front == [] {
        assert rest + front == rest;
        assert NumberOf(front) == 0 by {
          NumberOfNone();
        }
        if i <= 7 {
          ScanStops(rest, i + 1, power + 1, code + p * d);
        }
      } else {
        ScanOfRun(rest, front, i + 1, true, power + 1, code + p * d);
        assert Pow10(power + 1) == 10 * p by {
          NextPower(power);
        }
      }
    }
  }

  lemma NumberOfNone()
    ensures NumberOf([]) == 0
  {
  }

  lemma NextPower(n: nat)
    ensures Pow10(n + 1) == 10 * Pow10(n)
  {
  }

  lemma ScanOfLast(rest: seq<byte>, last: byte, i: nat, started: bool, power: nat, code: u16)
    requires IsDigit(last)
    ensures var n := code + Pow10(power) * (last - 48);
            Scan(rest + [last], i, started, power, code)
            == if Pow10(power) > U16_MAX || n > U16_MAX then Overflow
               else if i > 7 then Code(n) else Scan(rest, i + 1, true, power + 1, n)
  {
    var piece := rest + [last];
    assert piece[|piece| - 1] == last && piece[..|piece| - 1] == rest;
    assert Pow10(power) * (last - 48) >= 0;
  }

  /** Nine bytes without a digit end the scan. */
  lemma ScanOfNothing(rest: seq<byte>, suffix: seq<byte>)
    requires NoDigits(suffix) && |suffix| <= 9 && (|suffix| < 9 ==> rest == [])
    ensures Scan(rest + suffix, 0, false, 0, 0) == Code(0)
  {
    if |suffix| < 9 {
      ScanSkipsSuffix(rest, suffix, 0);
    } else {
      var first, others := rest + suffix[..1], suffix[1..];
      assert rest + suffix == first + others;
      ScanSkipsSuffix(first, others, 0);
    }
  }

  /** What the scan gives for any bytes: the number of the last digits among the last nine bytes, 0 if there are none,
      and an overflow if there are more than five or their number exceeds 16 bits. */
  lemma ScanIs(piece: seq<byte>, pre: seq<byte>, run: seq<byte>, suffix: seq<byte>)
    requires LastRun(piece, pre, run, suffix)
    ensures Scan(piece, 0, false, 0, 0) == if RunFits(run) then Code(NumberOf(run)) else Overflow
  {
    hide Scan, AllDigits, NoDigits;
    var rest := piece[..|piece| - |Window(piece)|];
    assert piece == rest + Window(piece);
    if run == [] {
      assert pre + run + suffix == suffix;
      ScanOfNothing(rest, suffix);
    } else {
      assert piece == (rest + pre + run) + suffix;
      ScanSkipsSuffix(rest + pre + run, suffix, 0);
      ScanOfRun(rest + pre, run, |suffix|, false, 0, 0);
      assert Pow10(0) == 1 by {
        PowersOfTen(0);
      }
    }
  }

  /** Every piece has such last digits. */
  lemma LastRunExists(piece: seq<byte>) returns (pre: seq<byte>, run: seq<byte>, suffix: seq<byte>)
    ensures LastRun(piece, pre, run, suffix)
  {
    var w := Window(piece);
    var end := |w|;
    while end > 0 && !IsDigit(w[end - 1])
      invariant 0 <= end <= |w| && NoDigits(w[end..])
    {
      end := end - 1;
    }
    var start := end;
    while start > 0 && IsDigit(w[start - 1])
      invariant 0 <= start <= end && AllDigits(w[start..end])
    {
      start := start - 1;
    }
    pre, run, suffix := w[..start], w[start..end], w[end..];
    ThreeParts(w, start, end);
  }

  lemma ThreeParts(w: seq<byte>, a: nat, b: nat)
    requires a <= b <= |w|
    ensures w == w[..a] + w[a..b] + w[b..]
  {
  }

  /** The result for any text without "VERT": its last number, an error if that is 0 or there is none. */
  lemma EpsgOfPlainText(bytes: seq<byte>, pre: seq<byte>, run: seq<byte>, suffix: seq<byte>)
    requires forall j: nat :: !At(Lossy(bytes), j, VERT)
    requires LastRun(Lossy(bytes), pre, run, suffix)
    ensures EpsgOfWkt(bytes)
         == if !RunFits(run) then None
            else if NumberOf(run) == 0 then Some(Err(UnreadableWktCrs))
            else Some(Ok(Epsg(NumberOf(run), None)))
  {
    hide Lossy, Scan, LastRun, NumberOf;
    FindVertFindsNone(Lossy(bytes), 0);
    ScanIs(Lossy(bytes), pre, run, suffix);
  }

  /** The result for any text with "VERT": the last numbers before and after its first occurrence. Without a number
      before it there is an error, without one after it there is no vertical code. */
  lemma EpsgOfSplitText(bytes: seq<byte>, h: seq<byte>, v: seq<byte>, hRun: seq<byte>, vRun: seq<byte>)
    requires Lossy(bytes) == h + [0x56, 0x45, 0x52, 0x54] + v && forall j | 0 <= j < |h| :: !At(Lossy(bytes), j, VERT)
    requires exists pre, suffix :: LastRun(h, pre, hRun, suffix)
    requires exists pre, suffix :: LastRun(v, pre, vRun, suffix)
    ensures AllDigits(hRun) && AllDigits(vRun)
    ensures EpsgOfWkt(bytes)
         == if !RunFits(hRun) || !RunFits(vRun) then None
            else if NumberOf(hRun) == 0 then Some(Err(UnreadableWktCrs))
            else Some(Ok(Epsg(NumberOf(hRun), if NumberOf(vRun) == 0 then None else Some(NumberOf(vRun)))))
  {
    hide Lossy, Scan, FindVert, NumberOf;
    var s := Lossy(bytes);
    assert At(s, |h|, VERT);
    FindVertFindsFirst(s, 0, |h|);
    assert s[..|h|] == h && s[|h| + 4..] == v;
    var hPre, hSuffix :| LastRun(h, hPre, hRun, hSuffix);
    var vPre, vSuffix :| LastRun(v, vPre, vRun, vSuffix);
    ScanIs(h, hPre, hRun, hSuffix);
    ScanIs(v, vPre, vRun, vSuffix);
  }

  /** Sixteen bits have at most five digits. */
  lemma ShortDecimal(n: u16)
    ensures |Decimal(n)| <= 5
  {
    assert n / 10 < 6554;
    assert n / 10 / 10 < 656;
    assert n / 10 / 10 / 10 < 66;
    assert n / 10 / 10 / 10 / 10 < 10;
    assert |Decimal(n / 10 / 10 / 10 / 10)| == 1;
    DecimalGrows(n / 10 / 10 / 10);
    DecimalGrows(n / 10 / 10);
    DecimalGrows(n / 10);
    DecimalGrows(n);
  }

  lemma DecimalGrows(n: nat)
    ensures |Decimal(n)| <= |Decimal(n / 10)| + 1
  {
  }

  lemma {:induction false} NumberOfDecimal(n: nat)
    ensures NumberOf(Decimal(n)) == n
  {
    if n >= 10 {
      NumberOfDecimal(n / 10);
      assert Decimal(n)[..|Decimal(n)| - 1] == Decimal(n / 10);
    }
  }
}
