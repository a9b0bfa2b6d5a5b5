/** Little-endian integers, and byte strings cut into the fields of a record. */
module Bytes {
  import opened Wrappers

  // A byte as eight bits. Counting up makes the conversion the inverse of `as int`.

  function Octet(v: bv8): byte {
    v as int
  }

  lemma OctetSuccessor(v: bv8)
    requires v < 255
    ensures Octet(v + 1) == Octet(v) + 1
  {
  }

  lemma OctetIsInjective(v: bv8, w: bv8)
    ensures Octet(v) == Octet(w) ==> v == w
  {
  }

  function Bits(b: byte): (v: bv8)
    ensures Octet(v) == b
  {
    if b == 0 then 0
    else
      var v := Bits(b - 1);
      OctetSuccessor(v);
      v + 1
  }

  lemma BitsOfOctet(v: bv8)
    ensures Bits(Octet(v)) == v
  {
    OctetIsInjective(Bits(Octet(v)), v);
  }

  function Pow256(width: nat): (p: nat)
    ensures p > 0
  {
    if width == 0 then 1 else 256 * Pow256(width - 1)
  }

  function LittleEndian(n: nat, width: nat): (s: seq<byte>)
    ensures |s| == width
  {
    if width == 0 then [] else [n % 256] + LittleEndian(n / 256, width - 1)
  }

  function FromLittleEndian(s: seq<byte>): nat {
    if s == [] then 0 else s[0] + 256 * FromLittleEndian(s[1..])
  }

  lemma {:induction false} LittleEndianReadsBack(n: nat, width: nat)
    requires n < Pow256(width)
    ensures FromLittleEndian(LittleEndian(n, width)) == n
  {
    if width > 0 {
      LittleEndianReadsBack(n / 256, width - 1);
      assert LittleEndian(n, width)[1..] == LittleEndian(n / 256, width - 1);
    }
  }

  lemma {:induction false} LittleEndianRewrites(s: seq<byte>)
    ensures FromLittleEndian(s) < Pow256(|s|)
    ensures LittleEndian(FromLittleEndian(s), |s|) == s
  {
    if s != [] {
      LittleEndianRewrites(s[1..]);
      var n := FromLittleEndian(s);
      assert n % 256 == s[0] && n / 256 == FromLittleEndian(s[1..]);
      assert s == [s[0]] + s[1..];
    }
  }

  // The integers of the format. Each writer says what its bytes read back as,
  // each reader that its value writes the same bytes.

  function U16Bytes(n: u16): (s: seq<byte>)
    ensures |s| == 2 && FromLittleEndian(s) == n
  {
    LittleEndianReadsBack(n, 2);
    LittleEndian(n, 2)
  }

  function U32Bytes(n: u32): (s: seq<byte>)
    ensures |s| == 4 && FromLittleEndian(s) == n
  {
    assert Pow256(4) == 0x1_0000_0000;
    LittleEndianReadsBack(n, 4);
    LittleEndian(n, 4)
  }

  function U64Bytes(n: u64): (s: seq<byte>)
    ensures |s| == 8 && FromLittleEndian(s) == n
  {
    assert Pow256(8) == 0x1_0000_0000_0000_0000;
    LittleEndianReadsBack(n, 8);
    LittleEndian(n, 8)
  }

  function I32Bytes(n: i32): (s: seq<byte>)
    ensures |s| == 4
  {
    U32Bytes(if n < 0 then n + 0x1_0000_0000 else n)
  }

  function I16Bytes(n: i16): (s: seq<byte>)
    ensures |s| == 2
  {
    U16Bytes(if n < 0 then n + 0x1_0000 else n)
  }

  function I8Byte(n: i8): byte {
    if n < 0 then n + 0x100 else n
  }

  function GetU16(s: seq<byte>): (n: u16)
    requires |s| == 2
    ensures U16Bytes(n) == s
  {
    LittleEndianRewrites(s);
    FromLittleEndian(s)
  }

  function GetU32(s: seq<byte>): (n: u32)
    requires |s| == 4
    ensures U32Bytes(n) == s
  {
    LittleEndianRewrites(s);
    assert Pow256(4) == 0x1_0000_0000;
    FromLittleEndian(s)
  }

  function GetU64(s: seq<byte>): (n: u64)
    requires |s| == 8
    ensures U64Bytes(n) == s
  {
    LittleEndianRewrites(s);
    assert Pow256(8) == 0x1_0000_0000_0000_0000;
    FromLittleEndian(s)
  }

  function GetI32(s: seq<byte>): (n: i32)
    requires |s| == 4
    ensures I32Bytes(n) == s
  {
    var n := GetU32(s);
    if n >= 0x8000_0000 then n - 0x1_0000_0000 else n
  }

  function GetI16(s: seq<byte>): (n: i16)
    requires |s| == 2
    ensures I16Bytes(n) == s
  {
    var n := GetU16(s);
    if n >= 0x8000 then n - 0x1_0000 else n
  }

  function GetI8(b: byte): (n: i8)
    ensures I8Byte(n) == b
  {
    if b >= 0x80 then b - 0x100 else b
  }

  lemma SignedReadsBack(n: i32, m: i16, k: i8)
    ensures GetI32(I32Bytes(n)) == n && GetI16(I16Bytes(m)) == m && GetI8(I8Byte(k)) == k
  {
  }

  lemma FirstDigit(b: byte, q: nat, width: nat)
    ensures LittleEndian(b + 256 * q, width + 1) == [b] + LittleEndian(q, width)
  {
    assert (b + 256 * q) / 256 == q;
  }

  lemma NoDigits(q: nat)
    ensures LittleEndian(q, 0) == []
  {
  }

  /** The least significant byte comes first. */
  lemma U16BytesAre(a: byte, b: byte)
    ensures U16Bytes(a + 0x100 * b) == [a, b]
  {
    FirstDigit(a, b, 1);
    FirstDigit(b, 0, 0);
    NoDigits(0);
  }

  lemma U32BytesAre(a: byte, b: byte, c: byte, d: byte)
    ensures U32Bytes(a + 0x100 * b + 0x1_0000 * c + 0x100_0000 * d) == [a, b, c, d]
  {
    hide LittleEndian;
    FirstDigit(a, b + 0x100 * c + 0x1_0000 * d, 3);
    FirstDigit(b, c + 0x100 * d, 2);
    FirstDigit(c, d, 1);
    FirstDigit(d, 0, 0);
    NoDigits(0);
  }

  lemma U64BytesAre(lo: u32, a: byte, b: byte, c: byte, d: byte)
    ensures U64Bytes(lo + 0x1_0000_0000 * (a + 0x100 * b + 0x1_0000 * c + 0x100_0000 * d))
         == U32Bytes(lo) + [a, b, c, d]
  {
    hide LittleEndian;
    var s := U32Bytes(lo);
    var hi := a + 0x100 * b + 0x1_0000 * c + 0x100_0000 * d;
    FourDigits(s);
    assert s == [s[0], s[1], s[2], s[3]];
    FirstDigit(s[0], s[1] + 0x100 * s[2] + 0x1_0000 * s[3] + 0x100_0000 * hi, 7);
    FirstDigit(s[1], s[2] + 0x100 * s[3] + 0x1_0000 * hi, 6);
    FirstDigit(s[2], s[3] + 0x100 * hi, 5);
    FirstDigit(s[3], hi, 4);
    U32BytesAre(a, b, c, d);
    assert LittleEndian(hi, 4) == U32Bytes(hi);
  }

  lemma FourDigits(s: seq<byte>)
    requires |s| == 4
    ensures FromLittleEndian(s) == s[0] as int + 0x100 * s[1] as int + 0x1_0000 * s[2] as int + 0x100_0000 * s[3] as int
  {
    assert s[1..][1..] == s[2..] && s[2..][1..] == s[3..] && s[3..][1..] == [];
    assert FromLittleEndian(s[2..]) == s[2] + 256 * FromLittleEndian(s[3..]);
    assert FromLittleEndian(s[1..]) == s[1] + 256 * FromLittleEndian(s[2..]);
  }

  /** Negative numbers are stored in two's complement. */
  lemma TwosComplement(n: i32, m: i16, k: i8)
    ensures n >= 0 ==> I32Bytes(n) == U32Bytes(n)
    ensures n < 0 ==> I32Bytes(n) == U32Bytes(0x1_0000_0000 + n)
    ensures m >= 0 ==> I16Bytes(m) == U16Bytes(m)
    ensures m < 0 ==> I16Bytes(m) == U16Bytes(0x1_0000 + m)
    ensures k >= 0 ==> I8Byte(k) == k
    ensures k < 0 ==> I8Byte(k) == 0x100 + k
  {
  }

  // A record is written as a list of fields and read as a list of widths.

  function Join(fields: seq<seq<byte>>): seq<byte> {
    if fields == [] then [] else fields[0] + Join(fields[1..])
  }

  function Sum(widths: seq<nat>): nat {
    if widths == [] then 0 else widths[0] + Sum(widths[1..])
  }

  lemma {:induction false} SumAppend(v: seq<nat>, w: seq<nat>)
    ensures Sum(v + w) == Sum(v) + Sum(w)
  {
    if v == [] {
      assert v + w == w;
    } else {
      SumAppend(v[1..], w);
      assert (v + w)[1..] == v[1..] + w;
    }
  }

  lemma SumOfFour(w: seq<nat>)
    requires |w| == 4
    ensures Sum(w) == w[0] + w[1] + w[2] + w[3]
  {
    assert w[1..][1..] == w[2..] && w[2..][1..] == w[3..] && w[3..][1..] == [];
    assert Sum(w[2..]) == w[2] + Sum(w[3..]);
  }

  predicate HaveWidths(fields: seq<seq<byte>>, widths: seq<nat>) {
    |fields| == |widths| && forall i :: 0 <= i < |fields| ==> |fields[i]| == widths[i]
  }

  function Split(s: seq<byte>, widths: seq<nat>): (fields: seq<seq<byte>>)
    requires Sum(widths) <= |s|
    ensures HaveWidths(fields, widths)
  {
    if widths == [] then [] else [s[..widths[0]]] + Split(s[widths[0]..], widths[1..])
  }

  lemma {:induction false} JoinLength(fields: seq<seq<byte>>, widths: seq<nat>)
    requires HaveWidths(fields, widths)
    ensures |Join(fields)| == Sum(widths)
  {
    if fields != [] {
      JoinLength(fields[1..], widths[1..]);
    }
  }

  lemma {:induction false} SplitJoin(fields: seq<seq<byte>>, widths: seq<nat>, rest: seq<byte>)
    requires HaveWidths(fields, widths)
    ensures |Join(fields)| == Sum(widths)
    ensures Split(Join(fields) + rest, widths) == fields
  {
    JoinLength(fields, widths);
    if fields != [] {
      SplitJoin(fields[1..], widths[1..], rest);
      var s := Join(fields) + rest;
      assert s[..widths[0]] == fields[0];
      assert s[widths[0]..] == Join(fields[1..]) + rest;
    }
  }

  /** Where the `i`th of several fields begins. */
  function Offset(widths: seq<nat>, i: nat): nat
    requires i <= |widths|
  {
    if i == 0 then 0 else Offset(widths, i - 1) + widths[i - 1]
  }

  lemma {:induction false} OffsetOfRest(widths: seq<nat>, i: nat)
    requires 0 < i <= |widths|
    ensures Offset(widths, i) == widths[0] + Offset(widths[1..], i - 1)
    decreases i
  {
    if i > 1 {
      OffsetOfRest(widths, i - 1);
    }
  }

  lemma {:induction false} FieldAt(fields: seq<seq<byte>>, widths: seq<nat>, i: nat)
    requires HaveWidths(fields, widths) && i < |fields|
    ensures At(Join(fields), Offset(widths, i), fields[i])
    decreases i
  {
    var rest := Join(fields[1..]);
    if i > 0 {
      FieldAt(fields[1..], widths[1..], i - 1);
      OffsetOfRest(widths, i);
      var at, b := Offset(widths[1..], i - 1), fields[i];
      assert Join(fields)[widths[0] + at..widths[0] + at + |b|] == rest[at..at + |b|];
    }
  }

  lemma {:induction false} OffsetsEndIn(widths: seq<nat>, i: nat)
    requires i < |widths|
    ensures Offset(widths, i) + widths[i] <= Sum(widths)
    decreases i
  {
    if i > 0 {
      OffsetsEndIn(widths[1..], i - 1);
      OffsetOfRest(widths, i);
    }
  }

  /** Where a field is read. */
  lemma {:induction false} SplitField(s: seq<byte>, widths: seq<nat>, i: nat)
    requires Sum(widths) <= |s| && i < |widths|
    ensures Offset(widths, i) + widths[i] <= |s|
    ensures Split(s, widths)[i] == s[Offset(widths, i)..Offset(widths, i) + widths[i]]
    decreases i
  {
    hide Split, Offset;
    OffsetsEndIn(widths, i);
    SplitStep(s, widths);
    if i > 0 {
      var w := widths[0];
      OffsetOfRest(widths, i);
      SplitField(s[w..], widths[1..], i - 1);
      assert s[w..] == s[w..|s|];
      var at := Offset(widths[1..], i - 1);
      SliceWithin(s, w, |s|, at, at + widths[i]);
    }
  }

  lemma SplitStep(s: seq<byte>, widths: seq<nat>)
    requires widths != [] && Sum(widths) <= |s|
    ensures widths[0] <= |s| && Sum(widths[1..]) <= |s| - widths[0]
    ensures Split(s, widths) == [s[..widths[0]]] + Split(s[widths[0]..], widths[1..])
    ensures Offset(widths, 0) == 0
  {
  }

  lemma SliceOfSlice(s: seq<byte>, a: nat, b: nat)
    requires a + b <= |s|
    ensures s[..a] + s[a..][..b] == s[..a + b]
  {
  }

  lemma {:induction false} JoinSplit(s: seq<byte>, widths: seq<nat>)
    requires Sum(widths) <= |s|
    ensures Join(Split(s, widths)) == s[..Sum(widths)]
  {
    if widths != [] {
      JoinSplit(s[widths[0]..], widths[1..]);
      var fields := Split(s, widths);
      assert fields[0] == s[..widths[0]] && fields[1..] == Split(s[widths[0]..], widths[1..]);
      SliceOfSlice(s, widths[0], Sum(widths[1..]));
    }
  }

  lemma JoinOfNone()
    ensures Join([]) == []
  {
  }

  lemma JoinOfSome(fields: seq<seq<byte>>)
    requires fields != []
    ensures Join(fields) == fields[0] + Join(fields[1..])
  {
  }

  lemma {:induction false} JoinAppend(xs: seq<seq<byte>>, ys: seq<seq<byte>>)
    ensures Join(xs + ys) == Join(xs) + Join(ys)
  {
    hide Join;
    if xs == [] {
      assert xs + ys == ys;
      JoinOfNone();
    } else {
      JoinAppend(xs[1..], ys);
      JoinOfSome(xs);
      JoinOfSome(xs + ys);
      assert (xs + ys)[0] == xs[0] && (xs + ys)[1..] == xs[1..] + ys;
    }
  }

  // Arrays of counts

  function U32sBytes(ns: seq<u32>): (s: seq<byte>)
    ensures |s| == 4 * |ns|
  {
    if ns == [] then [] else U32Bytes(ns[0]) + U32sBytes(ns[1..])
  }

  function GetU32s(s: seq<byte>, n: nat): (ns: seq<u32>)
    requires |s| == 4 * n
    ensures |ns| == n
  {
    if n == 0 then [] else [GetU32(s[..4])] + GetU32s(s[4..], n - 1)
  }

  function U64sBytes(ns: seq<u64>): (s: seq<byte>)
    ensures |s| == 8 * |ns|
  {
    if ns == [] then [] else U64Bytes(ns[0]) + U64sBytes(ns[1..])
  }

  function GetU64s(s: seq<byte>, n: nat): (ns: seq<u64>)
    requires |s| == 8 * n
    ensures |ns| == n
  {
    if n == 0 then [] else [GetU64(s[..8])] + GetU64s(s[8..], n - 1)
  }

  lemma SliceWithin(s: seq<byte>, a: nat, b: nat, i: nat, j: nat)
    requires a <= b <= |s| && i <= j <= b - a
    ensures s[a..b][i..j] == s[a + i..a + j]
  {
    var inner, outer := s[a..b][i..j], s[a + i..a + j];
    forall k | 0 <= k < j - i ensures inner[k] == outer[k] {
      assert inner[k] == s[a..b][i + k] == s[a + (i + k)];
    }
    assert inner == outer;
  }

  lemma {:induction false} GetU64sAt(s: seq<byte>, n: nat, i: nat)
    requires |s| == 8 * n && i < n
    ensures GetU64s(s, n)[i] == GetU64(s[8 * i..8 * i + 8])
    decreases i
  {
    hide GetU64;
    if i > 0 {
      GetU64sAt(s[8..], n - 1, i - 1);
      assert s[8..] == s[8..|s|];
      SliceWithin(s, 8, |s|, 8 * i - 8, 8 * i);
    }
  }

  lemma {:induction false} U32sReadBack(ns: seq<u32>)
    ensures GetU32s(U32sBytes(ns), |ns|) == ns
  {
    if ns != [] {
      U32sReadBack(ns[1..]);
      var s := U32sBytes(ns);
      assert s[..4] == U32Bytes(ns[0]) && s[4..] == U32sBytes(ns[1..]);
    }
  }

  lemma {:induction false} U64sReadBack(ns: seq<u64>)
    ensures GetU64s(U64sBytes(ns), |ns|) == ns
  {
    if ns != [] {
      U64sReadBack(ns[1..]);
      var s := U64sBytes(ns);
      assert s[..8] == U64Bytes(ns[0]) && s[8..] == U64sBytes(ns[1..]);
    }
  }

  lemma {:induction false} U32sAt(ns: seq<u32>, i: nat)
    requires i < |ns|
    ensures At(U32sBytes(ns), 4 * i, U32Bytes(ns[i]))
    decreases i
  {
    hide U32Bytes;
    if i > 0 {
      U32sAt(ns[1..], i - 1);
      var rest := U32sBytes(ns[1..]);
      assert U32sBytes(ns)[4 * i..4 * i + 4] == rest[4 * (i - 1)..4 * (i - 1) + 4];
    }
  }

  lemma {:induction false} U64sAt(ns: seq<u64>, i: nat)
    requires i < |ns|
    ensures At(U64sBytes(ns), 8 * i, U64Bytes(ns[i]))
    decreases i
  {
    hide U64Bytes;
    if i > 0 {
      U64sAt(ns[1..], i - 1);
      var rest := U64sBytes(ns[1..]);
      assert U64sBytes(ns)[8 * i..8 * i + 8] == rest[8 * (i - 1)..8 * (i - 1) + 8];
    }
  }

  /** The bytes that `read_exact` returns for `n` bytes at `pos`. */
  function ReadExact(s: seq<byte>, pos: nat, n: nat): (r: Result<seq<byte>>)
    ensures r.Ok? ==> |r.value| == n
  {
    if pos + n <= |s| then Ok(s[pos..pos + n]) else Err(UnexpectedEof)
  }

  lemma ReadInTwoSteps(s: seq<byte>, pos: nat, n: nat, m: nat)
    ensures ReadExact(s, pos, n).Ok? ==>
              match ReadExact(s, pos + n, m)
              case Ok(b) => ReadExact(s, pos, n + m) == Ok(ReadExact(s, pos, n).value + b)
              case Err(e) => ReadExact(s, pos, n + m) == Err(e)
  {
    if pos + n + m <= |s| {
      assert s[pos..pos + (n + m)] == s[pos..pos + n] + s[pos + n..pos + n + m];
    }
  }

  /** At most `n` bytes, as a limited read to the end gives them. */
  function TakeAt(s: seq<byte>, pos: nat, n: nat): seq<byte> {
    if pos > |s| then [] else if pos + n > |s| then s[pos..] else s[pos..pos + n]
  }

  /** The bytes `b` stand at `pos`. */
  predicate At(s: seq<byte>, pos: nat, b: seq<byte>) {
    pos + |b| <= |s| && s[pos..pos + |b|] == b
  }

  lemma AtAppend(s: seq<byte>, pos: nat, a: seq<byte>, b: seq<byte>)
    ensures At(s, pos, a + b) <==> At(s, pos, a) && At(s, pos + |a|, b)
  {
    if At(s, pos, a + b) {
      assert s[pos..pos + |a|] == (a + b)[..|a|];
      assert s[pos + |a|..pos + |a| + |b|] == (a + b)[|a|..];
    }
    if At(s, pos, a) && At(s, pos + |a|, b) {
      assert s[pos..pos + |a + b|] == s[pos..pos + |a|] + s[pos + |a|..pos + |a| + |b|];
    }
  }

  lemma AtInside(s: seq<byte>, pos: nat, outer: seq<byte>, at: nat, inner: seq<byte>)
    requires At(s, pos, outer) && At(outer, at, inner)
    ensures At(s, pos + at, inner)
  {
    forall j | 0 <= j < |inner| ensures s[pos + at + j] == inner[j] {
      assert s[pos..pos + |outer|][at + j] == outer[at + j];
      assert outer[at..at + |inner|][j] == inner[j];
    }
  }

  lemma ReadsWhatIsAt(s: seq<byte>, pos: nat, b: seq<byte>)
    requires At(s, pos, b)
    ensures ReadExact(s, pos, |b|) == Ok(b)
  {
  }

  /** `n` zero bytes. */
  function Zeros(n: nat): (z: seq<byte>)
    ensures |z| == n
  {
    seq(n, _ => 0)
  }
}
