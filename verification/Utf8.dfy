/** UTF-8 text as bytes: validity and the replacement of what is not valid. */
module Utf8 {
  import opened Wrappers

  /** U+FFFD, which replaces every invalid chunk. */
  const REPLACEMENT: seq<byte> := [0xEF, 0xBF, 0xBD]

  /** The first chunk of some bytes: a whole character, or what is replaced as one. */
  datatype Chunk = Chunk(isCharacter: bool, length: nat)

  predicate Within(s: seq<byte>, i: nat, lo: int, hi: int) {
    i < |s| && lo <= s[i] <= hi
  }

  /** How many bytes the character that starts with `b` has, or 0 if none does. */
  function CharacterLength(b: byte): nat {
    if b < 0x80 then 1
    else if 0xC2 <= b <= 0xDF then 2
    else if 0xE0 <= b <= 0xEF then 3
    else if 0xF0 <= b <= 0xF4 then 4
    else 0
  }

  /** The second byte excludes overlong forms, surrogates and what lies beyond U+10FFFF. */
  predicate SecondByteFits(s: seq<byte>)
    requires s != []
  {
    Within(s, 1,
           if s[0] == 0xE0 then 0xA0 else if s[0] == 0xF0 then 0x90 else 0x80,
           if s[0] == 0xED then 0x9F else if s[0] == 0xF4 then 0x8F else 0xBF)
  }

  /** An invalid chunk is the longest part of a character that the bytes begin with, or a single byte. */
  function FirstChunk(s: seq<byte>): (c: Chunk)
    requires s != []
    ensures 1 <= c.length <= 4 && c.length <= |s|
  {
    var n := CharacterLength(s[0]);
    if n <= 1 then Chunk(n == 1, 1)
    else if !SecondByteFits(s) then Chunk(false, 1)
    else if n == 2 then Chunk(true, 2)
    else if !Within(s, 2, 0x80, 0xBF) then Chunk(false, 2)
    else if n == 3 then Chunk(true, 3)
    else if !Within(s, 3, 0x80, 0xBF) then Chunk(false, 3)
    else Chunk(true, 4)
  }

  predicate IsText(s: seq<byte>) {
    s == [] || (FirstChunk(s).isCharacter && IsText(s[FirstChunk(s).length..]))
  }

  /** What `String::from_utf8_lossy` makes of bytes. */
  function Lossy(s: seq<byte>): seq<byte> {
    if s == [] then []
    else
      var c := FirstChunk(s);
      (if c.isCharacter then s[..c.length] else REPLACEMENT) + Lossy(s[c.length..])
  }

  /** A character is recognised whatever follows it. */
  lemma CharacterStands(s: seq<byte>, n: nat, rest: seq<byte>)
    requires s != [] && FirstChunk(s) == Chunk(true, n)
    ensures FirstChunk(s[..n] + rest) == Chunk(true, n)
    ensures (s[..n] + rest)[n..] == rest
    ensures s[0] != 0 ==> forall i | 0 <= i < n :: s[i] != 0
    ensures s[0] == 0 ==> n == 1
  {
    var t := s[..n] + rest;
    assert forall i | 0 <= i < n :: t[i] == s[i];
  }

  lemma {:induction false} LossyIsText(s: seq<byte>)
    ensures IsText(Lossy(s))
  {
    if s != [] {
      var c := FirstChunk(s);
      var rest := Lossy(s[c.length..]);
      LossyIsText(s[c.length..]);
      if c.isCharacter {
        CharacterStands(s, c.length, rest);
      } else {
        assert FirstChunk(REPLACEMENT) == Chunk(true, 3);
        CharacterStands(REPLACEMENT, 3, rest);
        assert REPLACEMENT[..3] == REPLACEMENT;
      }
    }
  }

  lemma {:induction false} LossyKeepsText(s: seq<byte>)
    requires IsText(s)
    ensures Lossy(s) == s
  {
    if s != [] {
      LossyKeepsText(s[FirstChunk(s).length..]);
    }
  }

  /** Bytes are kept exactly when they are valid, and what replaces them always is. */
  lemma LossyKeepsIffText(s: seq<byte>)
    ensures Lossy(s) == s <==> IsText(s)
    ensures IsText(Lossy(s)) && Lossy(Lossy(s)) == Lossy(s)
  {
    hide IsText, Lossy;
    LossyIsText(s);
    LossyKeepsText(Lossy(s));
    if IsText(s) {
      LossyKeepsText(s);
    }
  }

  lemma {:induction false} AsciiIsText(s: seq<byte>)
    requires forall i :: 0 <= i < |s| ==> s[i] < 0x80
    ensures IsText(s)
  {
    if s != [] {
      AsciiIsText(s[1..]);
    }
  }

  // Texts are sequences of Unicode scalar values

  predicate IsScalar(c: nat) {
    c < 0xD800 || 0xE000 <= c < 0x11_0000
  }

  /** The shortest encoding of a scalar value. */
  function EncodeScalar(c: nat): seq<byte>
    requires IsScalar(c)
  {
    if c < 0x80 then [c]
    else if c < 0x800 then [0xC0 + c / 64, 0x80 + c % 64]
    else if c < 0x1_0000 then [0xE0 + c / 4096, 0x80 + c / 64 % 64, 0x80 + c % 64]
    else [0xF0 + c / 262144, 0x80 + c / 4096 % 64, 0x80 + c / 64 % 64, 0x80 + c % 64]
  }

  predicate AllScalars(cs: seq<nat>) {
    forall i :: 0 <= i < |cs| ==> IsScalar(cs[i])
  }

  function TextOf(cs: seq<nat>): seq<byte>
    requires AllScalars(cs)
  {
    if cs == [] then [] else EncodeScalar(cs[0]) + TextOf(cs[1..])
  }

  lemma ScalarIsCharacter(c: nat)
    requires IsScalar(c)
    ensures EncodeScalar(c) != [] && FirstChunk(EncodeScalar(c)) == Chunk(true, |EncodeScalar(c)|)
  {
    if 0x800 <= c < 0x1_0000 {
      ThreeByteScalar(c, c / 4096, c / 64 % 64, c % 64);
    } else if 0x1_0000 <= c {
      FourByteScalar(c, c / 262144, c / 4096 % 64, c / 64 % 64, c % 64);
    }
  }

  lemma ThreeByteScalar(c: nat, x: nat, y: nat, z: nat)
    requires IsScalar(c) && 0x800 <= c < 0x1_0000 && x == c / 4096 && y == c / 64 % 64 && z == c % 64
    ensures x < 16 && y < 64 && z < 64 && c == 4096 * x + 64 * y + z
    ensures FirstChunk([0xE0 + x, 0x80 + y, 0x80 + z]) == Chunk(true, 3)
  {
    assert c == 64 * (c / 64) + z && c / 64 == 64 * x + y;
  }

  lemma FourByteScalar(c: nat, w: nat, x: nat, y: nat, z: nat)
    requires IsScalar(c) && 0x1_0000 <= c && w == c / 262144 && x == c / 4096 % 64 && y == c / 64 % 64 && z == c % 64
    ensures w < 5 && x < 64 && y < 64 && z < 64 && c == 262144 * w + 4096 * x + 64 * y + z
    ensures FirstChunk([0xF0 + w, 0x80 + x, 0x80 + y, 0x80 + z]) == Chunk(true, 4)
  {
    assert c == 64 * (c / 64) + z && c / 64 == 64 * (c / 4096) + y && c / 4096 == 64 * w + x;
  }

  lemma CharacterIsScalar(s: seq<byte>) returns (c: nat)
    requires s != [] && FirstChunk(s).isCharacter
    ensures IsScalar(c) && EncodeScalar(c) == s[..FirstChunk(s).length]
  {
    var n := FirstChunk(s).length;
    if n == 1 {
      c := s[0];
    } else if n == 2 {
      c := TwoBytes(s[0], s[1]);
    } else if n == 3 {
      c := ThreeBytes(s[0], s[1], s[2]);
    } else {
      c := FourBytes(s[0], s[1], s[2], s[3]);
    }
  }

  lemma TwoBytes(a: byte, b: byte) returns (c: nat)
    requires 0xC2 <= a <= 0xDF && 0x80 <= b <= 0xBF
    ensures IsScalar(c) && EncodeScalar(c) == [a, b]
  {
    c := (a - 0xC0) * 64 + (b - 0x80);
  }

  lemma ThreeBytes(a: byte, b: byte, d: byte) returns (c: nat)
    requires 0xE0 <= a <= 0xEF && SecondByteFits([a, b]) && 0x80 <= d <= 0xBF
    ensures IsScalar(c) && EncodeScalar(c) == [a, b, d]
  {
    c := (a - 0xE0) * 4096 + (b - 0x80) * 64 + (d - 0x80);
    assert c / 64 == (a - 0xE0) * 64 + (b - 0x80);
  }

  lemma FourBytes(a: byte, b: byte, d: byte, e: byte) returns (c: nat)
    requires 0xF0 <= a <= 0xF4 && SecondByteFits([a, b]) && 0x80 <= d <= 0xBF && 0x80 <= e <= 0xBF
    ensures IsScalar(c) && EncodeScalar(c) == [a, b, d, e]
  {
    c := (a - 0xF0) * 262144 + (b - 0x80) * 4096 + (d - 0x80) * 64 + (e - 0x80);
    assert c / 64 == (a - 0xF0) * 4096 + (b - 0x80) * 64 + (d - 0x80);
    assert c / 4096 == (a - 0xF0) * 64 + (b - 0x80);
  }

  lemma {:induction false} TextOfIsText(cs: seq<nat>)
    requires AllScalars(cs)
    ensures IsText(TextOf(cs))
  {
    hide FirstChunk, EncodeScalar;
    if cs != [] {
      var e, rest := EncodeScalar(cs[0]), TextOf(cs[1..]);
      TextOfIsText(cs[1..]);
      ScalarIsCharacter(cs[0]);
      CharacterStands(e, |e|, rest);
      assert e[..|e|] == e;
    }
  }

  lemma {:induction false} TextIsTextOf(s: seq<byte>) returns (cs: seq<nat>)
    requires IsText(s)
    ensures AllScalars(cs) && TextOf(cs) == s
  {
    hide FirstChunk, EncodeScalar;
    if s == [] {
      cs := [];
    } else {
      var c := CharacterIsScalar(s);
      var rest := TextIsTextOf(s[FirstChunk(s).length..]);
      cs := [c] + rest;
    }
  }

  /** Bytes are a text exactly when they are the encoding of Unicode scalar values. */
  lemma TextIffScalars(s: seq<byte>)
    ensures IsText(s) <==> exists cs: seq<nat> :: AllScalars(cs) && TextOf(cs) == s
  {
    if IsText(s) {
      var cs := TextIsTextOf(s);
    }
    if cs: seq<nat> :| AllScalars(cs) && TextOf(cs) == s {
      TextOfIsText(cs);
    }
  }

  /** A chunk that is replaced is as long as the bytes agree with any character: where a character stands it is found,
      and no beginning of a character is longer than the chunk. */
  lemma ReplacedChunkIsMaximal(s: seq<byte>, c: nat, m: nat)
    requires s != [] && IsScalar(c)
    ensures EncodeScalar(c) <= s ==> FirstChunk(s).isCharacter
    ensures m <= |s| && s[..m] <= EncodeScalar(c) ==> FirstChunk(s).isCharacter || m <= FirstChunk(s).length
  {
    var e := EncodeScalar(c);
    ScalarIsCharacter(c);
    if e <= s {
      assert e[..|e|] + s[|e|..] == s;
      CharacterStands(e, |e|, s[|e|..]);
    }
    if m <= |s| && s[..m] <= e {
      assert forall i | 0 <= i < m :: e[i] == s[..m][i] == s[i];
    }
  }

  /** And a chunk of several bytes does begin a character. */
  lemma ReplacedChunkBeginsCharacter(s: seq<byte>) returns (c: nat)
    requires s != [] && !FirstChunk(s).isCharacter && FirstChunk(s).length > 1
    ensures var n := FirstChunk(s).length; IsScalar(c) && n < |EncodeScalar(c)| && s[..n] <= EncodeScalar(c)
  {
    var n := FirstChunk(s).length;
    var e := s[..n] + if n == 2 then [0x80, 0x80] else [0x80];
    assert e[0] == s[0] && e[1] == s[1];
    c := CharacterIsScalar(e);
    assert e[..n] == s[..n];
  }
}
