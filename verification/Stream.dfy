/** A seekable in-memory byte stream. */
module Streams {
  import opened Wrappers
  import opened Bytes

  /** The contents after writing `b` at `pos`: bytes are overwritten, a gap is filled with zeros. */
  function Overwrite(s: seq<byte>, pos: nat, b: seq<byte>): seq<byte> {
    var t := if |s| < pos then s + Zeros(pos - |s|) else s;
    t[..pos] + b + if pos + |b| <= |t| then t[pos + |b|..] else []
  }

  /** Writing leaves what is before and behind as it was, and fills a gap with zeros. */
  lemma OverwriteIs(s: seq<byte>, pos: nat, b: seq<byte>)
    ensures var u := Overwrite(s, pos, b);
            && |u| == (if |s| < pos + |b| then pos + |b| else |s|)
            && forall i | 0 <= i < |u| ::
                 u[i] == if pos <= i < pos + |b| then b[i - pos] else if i < |s| then s[i] else 0
  {
  }

  lemma OverwriteAt(s: seq<byte>, pos: nat, b: seq<byte>)
    ensures At(Overwrite(s, pos, b), pos, b)
    ensures pos <= |s| ==> Overwrite(s, pos, b)[..pos] == s[..pos]
    ensures pos + |b| <= |s| ==> Overwrite(s, pos, b)[pos + |b|..] == s[pos + |b|..] && |Overwrite(s, pos, b)| == |s|
  {
  }

  lemma OverwriteReach(s: seq<byte>, pos: nat, b: seq<byte>)
    ensures pos + |b| <= |Overwrite(s, pos, b)|
    ensures pos <= |s| ==> Overwrite(s, pos, []) == s
  {
  }

  lemma OverwriteTwice(s: seq<byte>, pos: nat, a: seq<byte>, b: seq<byte>)
    ensures Overwrite(Overwrite(s, pos, a), pos + |a|, b) == Overwrite(s, pos, a + b)
  {
    var t := if |s| < pos then s + Zeros(pos - |s|) else s;
    var u := Overwrite(s, pos, a);
    assert u[..pos + |a|] == t[..pos] + a;
    if pos + |a| + |b| <= |t| {
      assert u[pos + |a| + |b|..] == t[pos + |a| + |b|..];
    }
  }

  /** Writing behind what stands at `start` extends it. */
  lemma OverwriteExtends(s: seq<byte>, start: nat, written: seq<byte>, b: seq<byte>)
    requires At(s, start, written)
    ensures At(Overwrite(s, start + |written|, b), start, written + b)
  {
    var u := Overwrite(s, start + |written|, b);
    OverwriteAt(s, start + |written|, b);
    assert u[start..start + |written|] == s[start..start + |written|];
    AtAppend(u, start, written, b);
  }

  /** Rewriting a front part with one of the same length leaves the rest where it was. */
  lemma OverwriteFront(s: seq<byte>, start: nat, front: seq<byte>, rest: seq<byte>, b: seq<byte>)
    requires At(s, start, front + rest) && |b| == |front|
    ensures At(Overwrite(s, start, b), start, b + rest)
  {
    var u := Overwrite(s, start, b);
    OverwriteAt(s, start, b);
    AtAppend(s, start, front, rest);
    assert u[start + |b|..start + |b| + |rest|] == s[start + |b|..start + |b| + |rest|];
    AtAppend(u, start, b, rest);
  }

  class Stream {
    var bytes: seq<byte>
    var pos: nat

    constructor (contents: seq<byte>)
      ensures bytes == contents && pos == 0
    {
      bytes, pos := contents, 0;
    }

    method WriteAll(b: seq<byte>)
      modifies this
      ensures bytes == Overwrite(old(bytes), old(pos), b) && pos == old(pos) + |b|
    {
      bytes := Overwrite(bytes, pos, b);
      pos := pos + |b|;
    }

    /** Reads exactly `n` bytes; a failed read leaves the stream at its end. */
    method Read(n: nat) returns (r: Result<seq<byte>>)
      modifies this`pos
      ensures r == ReadExact(bytes, old(pos), n)
      ensures pos == if r.Ok? then old(pos) + n else |bytes|
    {
      r := ReadExact(bytes, pos, n);
      pos := if r.Ok? then pos + n else |bytes|;
    }

    /** Reads at most `n` bytes. */
    method ReadUpTo(n: nat) returns (b: seq<byte>)
      modifies this`pos
      ensures b == TakeAt(bytes, old(pos), n) && pos == old(pos) + |b|
      ensures old(pos) <= |bytes| ==> b <= bytes[old(pos)..] && (|b| == n || (|b| < n && pos == |bytes|))
      ensures old(pos) > |bytes| ==> b == []
    {
      b := TakeAt(bytes, pos, n);
      pos := pos + |b|;
    }

    method SeekStart(p: nat)
      modifies this`pos
      ensures pos == p
    {
      pos := p;
    }
  }
}
