/** The output side of `LZ4_compress_generic_validated`: sequences, their cost and their meaning. */
module Lz4Encoder {
  import opened Bytes
  import opened Options
  import opened Lz4Format
  import opened Lz4Copy

  // ---- what a sequence looks like ----

  /** The bytes that continue a length field of `v` in a token. */
  function LengthTail(v: nat): (s: seq<byte>)
    ensures |s| == if v < 15 then 0 else (v - 15) / 255 + 1
  {
    if v < 15 then [] else WriteRun(v - 15)
  }

  function Nibble(v: nat): (x: nat)
    ensures x <= 15
  {
    if v < 15 then v else 15
  }

  /** A token with the low half `low`, the rest of the literal length, and the literals. */
  function WriteLiterals(lits: seq<byte>, low: nat): (s: seq<byte>)
    requires low <= 15
  {
    [16 * Nibble(|lits|) + low] + LengthTail(|lits|) + lits
  }

  /** A whole sequence: `code` is the match length less 4. */
  function WriteSequence(lits: seq<byte>, offset: nat, code: nat): (s: seq<byte>)
  {
    WriteLiterals(lits, Nibble(code)) + ToLE(offset, 2) + LengthTail(code)
  }

  // ---- what the reference decoder makes of it ----

  lemma ShortLiteralsDecode(lits: seq<byte>, low: nat, tail: seq<byte>, out: seq<byte>, rule: Rule)
    requires low <= 15 && |lits| < 15
    ensures Decode(WriteLiterals(lits, low) + tail, out, rule)
            == Literals(16 * |lits| + low, |lits|, lits + tail, out, rule)
  {
    var token := 16 * |lits| + low;
    var s := [token] + (lits + tail);
    assert WriteLiterals(lits, low) + tail == s;
    assert token / 16 == |lits|;
    assert s[1..] == lits + tail;
  }

  lemma LongLiteralsDecode(lits: seq<byte>, low: nat, tail: seq<byte>, out: seq<byte>, rule: Rule)
    requires low <= 15 && |lits| >= 15
    ensures Decode(WriteLiterals(lits, low) + tail, out, rule) == Literals(240 + low, |lits|, lits + tail, out, rule)
  {
    var run, rest := WriteRun(|lits| - 15), lits + tail;
    var s := [240 + low] + (run + rest);
    assert WriteLiterals(lits, low) + tail == s;
    assert s[1..] == run + rest && s[1 + |run|..] == rest;
    RunRoundTrip(|lits| - 15, rest);
  }

  lemma LiteralsDecode(lits: seq<byte>, low: nat, tail: seq<byte>, out: seq<byte>, rule: Rule)
    requires low <= 15
    ensures Decode(WriteLiterals(lits, low) + tail, out, rule)
            == Literals(16 * Nibble(|lits|) + low, |lits|, lits + tail, out, rule)
  {
    if |lits| < 15 {
      ShortLiteralsDecode(lits, low, tail, out, rule);
    } else {
      LongLiteralsDecode(lits, low, tail, out, rule);
    }
  }

  lemma MatchDecode(token: byte, offset: nat, code: nat, tail: seq<byte>, out: seq<byte>, rule: Rule)
    requires offset < 0x1_0000 && token % 16 == Nibble(code)
    ensures Offset(token, ToLE(offset, 2) + LengthTail(code) + tail, out, rule)
            == MatchCopy(offset, code + MINMATCH, tail, out, rule)
  {
    var t := LengthTail(code) + tail;
    var s := ToLE(offset, 2) + LengthTail(code) + tail;
    assert s[..2] == ToLE(offset, 2) && s[2..] == t;
    assert LE(ToLE(offset, 2)) == offset by {
      assert Pow256(2) == 0x1_0000;
      LEToLE(offset, 2);
    }
    if code >= 15 {
      RunRoundTrip(code - 15, tail);
      assert t[|LengthTail(code)|..] == tail;
    } else {
      assert t == tail;
    }
  }

  /** A sequence that obeys the end-of-block rules for `n` bytes, standing after `before` bytes. */
  predicate Obeys(n: nat, before: nat, lits: nat, offset: nat, len: nat)
  {
    && MINMATCH <= len && 0 < offset <= before + lits && offset < 0x1_0000
    && before + lits + MFLIMIT <= n && before + lits + len + LASTLITERALS <= n
  }

  /** The token of a sequence. */
  function Token(lits: nat, code: nat): (token: byte)
    ensures token % 16 == Nibble(code)
  {
    16 * Nibble(lits) + Nibble(code)
  }

  lemma LiteralsThenOffset(s: seq<byte>, lits: seq<byte>, low: nat, rest: seq<byte>, out: seq<byte>, n: nat)
    requires low <= 15 && |rest| >= 2 && |out| + |lits| + MFLIMIT <= n && s == WriteLiterals(lits, low) + rest
    ensures Decode(s, out, Total(n)) == Offset(16 * Nibble(|lits|) + low, rest, out + lits, Total(n))
  {
    LiteralsDecode(lits, low, rest, out, Total(n));
    OffsetFollows(16 * Nibble(|lits|) + low, lits, rest, out, n);
  }

  lemma OffsetThenToken(token: byte, s: seq<byte>, offset: nat, len: nat, tail: seq<byte>, out: seq<byte>, n: nat)
    requires MINMATCH <= len && token % 16 == Nibble(len - MINMATCH) && offset < 0x1_0000 && offset <= |out|
    requires |out| + len + LASTLITERALS <= n && s == ToLE(offset, 2) + LengthTail(len - MINMATCH) + tail
    ensures Offset(token, s, out, Total(n)) == Decode(tail, Extend(out, offset, len), Total(n))
  {
    MatchDecode(token, offset, len - MINMATCH, tail, out, Total(n));
    MatchObeyed(offset, len, tail, out, n);
  }

  /** The reference decoder reads such a sequence back and goes on behind it. */
  lemma SequenceDecodes(lits: seq<byte>, offset: nat, len: nat, tail: seq<byte>, out: seq<byte>, n: nat)
    requires Obeys(n, |out|, |lits|, offset, len)
    ensures Decode(WriteSequence(lits, offset, len - MINMATCH) + tail, out, Total(n))
            == Decode(tail, Extend(out + lits, offset, len), Total(n))
  {
    var code := len - MINMATCH;
    var rest := ToLE(offset, 2) + LengthTail(code) + tail;
    FourParts(WriteLiterals(lits, Nibble(code)), ToLE(offset, 2), LengthTail(code), tail);
    LiteralsThenOffset(WriteSequence(lits, offset, code) + tail, lits, Nibble(code), rest, out, n);
    OffsetThenToken(Token(|lits|, code), rest, offset, len, tail, out + lits, n);
  }

  lemma MatchObeyed(offset: nat, len: nat, tail: seq<byte>, out: seq<byte>, n: nat)
    requires offset <= |out| && |out| + len + LASTLITERALS <= n
    ensures MatchCopy(offset, len, tail, out, Total(n)) == Decode(tail, Extend(out, offset, len), Total(n))
  {
  }

  lemma FourParts(a: seq<byte>, b: seq<byte>, c: seq<byte>, d: seq<byte>)
    ensures a + b + c + d == a + (b + c + d)
  {
  }

  lemma OffsetFollows(token: byte, lits: seq<byte>, rest: seq<byte>, out: seq<byte>, n: nat)
    requires |out| + |lits| + MFLIMIT <= n && |rest| >= 2
    ensures Literals(token, |lits|, lits + rest, out, Total(n)) == Offset(token, rest, out + lits, Total(n))
  {
    var s := lits + rest;
    assert s[..|lits|] == lits && s[|lits|..] == rest;
  }

  lemma LastDecodes(lits: seq<byte>, out: seq<byte>)
    ensures Decode(WriteLiterals(lits, 0), out, Total(|out| + |lits|)) == Some(out + lits)
  {
    assert WriteLiterals(lits, 0) + [] == WriteLiterals(lits, 0) && lits + [] == lits;
    LiteralsDecode(lits, 0, [], out, Total(|out| + |lits|));
    assert lits[..|lits|] == lits;
  }

  /** `w` is the beginning of a block of `n` bytes whose decoder stands, behind it, at output `out`. */
  ghost predicate Begins(w: seq<byte>, out: seq<byte>, n: nat)
  {
    forall tail :: Decode(w + tail, [], Total(n)) == Decode(tail, out, Total(n))
  }

  lemma BeginsEmpty(n: nat)
    ensures Begins([], [], n)
  {
    forall tail: seq<byte> ensures Decode([] + tail, [], Total(n)) == Decode(tail, [], Total(n)) {
      assert [] + tail == tail;
    }
  }

  lemma BeginsNext(w: seq<byte>, out: seq<byte>, n: nat, lits: seq<byte>, offset: nat, len: nat)
    requires Begins(w, out, n) && Obeys(n, |out|, |lits|, offset, len)
    ensures Begins(w + WriteSequence(lits, offset, len - MINMATCH), Extend(out + lits, offset, len), n)
  {
    var q := WriteSequence(lits, offset, len - MINMATCH);
    forall tail ensures Decode(w + q + tail, [], Total(n)) == Decode(tail, Extend(out + lits, offset, len), Total(n)) {
      assert w + q + tail == w + (q + tail);
      SequenceDecodes(lits, offset, len, tail, out, n);
    }
  }

  /** Closing a block with the remaining literals makes it decode to the whole input. */
  lemma BeginsLast(w: seq<byte>, src: seq<byte>, anchor: nat)
    requires anchor <= |src| && Begins(w, src[..anchor], |src|)
    ensures Decode(w + WriteLiterals(src[anchor..], 0), [], Total(|src|)) == Some(src)
  {
    LastDecodes(src[anchor..], src[..anchor]);
    assert src[..anchor] + src[anchor..] == src;
  }

  // ---- what a sequence costs ----

  /** `LZ4_COMPRESSBOUND`, for the sizes the library takes */
  function CompressBound(n: nat): (b: nat)
  {
    n + n / 255 + 16
  }

  lemma LiteralsCost(lits: seq<byte>, low: nat)
    requires low <= 15
    ensures |WriteLiterals(lits, low)| == 1 + |LengthTail(|lits|)| + |lits|
    ensures 255 * |LengthTail(|lits|)| <= |lits| + 240
    ensures |LengthTail(|lits|)| <= |lits| / 255 + 1
    ensures |LengthTail(|lits|)| == (|lits| + 240) / 255
  {
  }

  /** A sequence never grows by more than one byte in 255. */
  lemma SequenceCost(lits: seq<byte>, offset: nat, len: nat)
    requires len >= MINMATCH
    ensures 255 * |WriteSequence(lits, offset, len - MINMATCH)| <= 256 * (|lits| + len)
  {
    var code := len - MINMATCH;
    LiteralsCost(lits, Nibble(code));
    if code >= 15 {
      assert 255 * |LengthTail(code)| <= code + 240;
    }
  }

  // ---- writing sequences ----

  lemma RunStep(w: seq<byte>, rest: nat)
    requires rest >= 255
    ensures w + WriteRun(rest) == (w + [255]) + WriteRun(rest - 255)
    ensures |WriteRun(rest)| == |WriteRun(rest - 255)| + 1
  {
    ConcatAssociates(w, [255], WriteRun(rest - 255));
  }

  /** A literal length past 15: one byte at a time. */
  method PutRun(dst: array<byte>, op: nat, v: nat) returns (op': nat)
    requires op + v / 255 + 1 <= dst.Length
    modifies dst
    ensures op' == op + v / 255 + 1 && dst[op..op'] == WriteRun(v)
    ensures forall k :: 0 <= k < op || op' <= k < dst.Length ==> dst[k] == old(dst[k])
  {
    var rest: nat := v;
    op' := op;
    ghost var end := op + |WriteRun(v)|;
    while rest >= 255
      invariant op <= op' && op' + |WriteRun(rest)| == end <= dst.Length
      invariant dst[op..op'] + WriteRun(rest) == WriteRun(v)
      invariant forall k :: 0 <= k < op || op' <= k < dst.Length ==> dst[k] == old(dst[k])
    {
      ghost var w := dst[op..op'];
      RunStep(w, rest);
      dst[op'] := 255;
      assert dst[op..op' + 1] == w + [255];
      rest, op' := rest - 255, op' + 1;
    }
    ghost var w := dst[op..op'];
    dst[op'] := rest;
    op' := op' + 1;
    assert dst[op..op'] == w + [rest];
  }

  /** The bytes 255 that `WriteRun` begins with, and the one that closes it. */
  lemma {:induction false} RunShape(v: nat)
    ensures WriteRun(v) == seq(v / 255, _ => 255) + [v % 255]
  {
    if v < 255 {
    } else {
      RunShape(v - 255);
      assert v / 255 == (v - 255) / 255 + 1 && v % 255 == (v - 255) % 255;
    }
  }

  /** A match length past 15: four bytes 255 at a time, then the last one over them. */
  method PutMatchRun(dst: array<byte>, op: nat, v: nat) returns (op': nat)
    requires op + v / 255 + 4 <= dst.Length
    modifies dst
    ensures op' == op + v / 255 + 1 && dst[op..op'] == WriteRun(v)
    ensures forall k :: 0 <= k < op ==> dst[k] == old(dst[k])
  {
    var rest := v;
    op' := op;
    Put(dst, op', [255, 255, 255, 255]);
    while rest >= 4 * 255
      invariant op <= op' && rest <= v && op' + rest / 255 == op + v / 255 && rest % 255 == v % 255
      invariant op' + 4 <= dst.Length
      invariant forall k :: op <= k < op' + 4 ==> dst[k] == 255
      invariant forall k :: 0 <= k < op ==> dst[k] == old(dst[k])
    {
      op' := op' + 4;
      Put(dst, op', [255, 255, 255, 255]);
      rest := rest - 4 * 255;
    }
    op' := op' + rest / 255;
    dst[op'] := rest % 255;
    op' := op' + 1;
    RunShape(v);
  }

  /** Room for a run of literals: what the check for a limited output secures. */
  predicate LiteralsFit(op: nat, lits: nat, capacity: nat)
  {
    op + 9 <= capacity && op + 1 + |LengthTail(lits)| + lits + 7 <= capacity
  }

  /** The token with an empty low half, and the rest of the literal length. */
  method PutLiteralsHead(dst: array<byte>, op: nat, len: nat) returns (op': nat)
    requires op + 1 + |LengthTail(len)| <= dst.Length
    modifies dst
    ensures op' == op + 1 + |LengthTail(len)|
    ensures dst[op..op'] == [16 * Nibble(len)] + LengthTail(len)
    ensures forall k :: 0 <= k < op ==> dst[k] == old(dst[k])
  {
    op' := op + 1;
    if len >= 15 {
      dst[op] := 240;
      op' := PutRun(dst, op', len - 15);
      HeadThenRest(dst[..], op, op');
      assert dst[..][op..op'] == dst[op..op'] && dst[..][op + 1..op'] == dst[op + 1..op'];
    } else {
      dst[op] := 16 * len;
    }
  }

  /** The token, the literal length and the literals, which are copied 8 bytes at a time. */
  method PutLiterals(dst: array<byte>, op: nat, src: seq<byte>, anchor: nat, ip: nat) returns (op': nat)
    requires anchor <= ip && ip + 8 <= |src| && LiteralsFit(op, ip - anchor, dst.Length)
    modifies dst
    ensures op' == op + 1 + |LengthTail(ip - anchor)| + (ip - anchor)
    ensures dst[op..op'] == WriteLiterals(src[anchor..ip], 0)
    ensures forall k :: 0 <= k < op ==> dst[k] == old(dst[k])
  {
    var q := PutLiteralsHead(dst, op, ip - anchor);
    ghost var before := dst[..q];
    WildCopyIn(dst, q, src, anchor, ip - anchor, 8);
    op' := q + (ip - anchor);
    assert dst[..op'][..op] == before[..op];
    assert dst[op..op'] == before[op..] + src[anchor..ip] by {
      assert dst[op..op'] == dst[..op'][op..];
    }
    forall k | 0 <= k < op ensures dst[k] == old(dst[k]) {
      assert dst[k] == dst[..op'][k] == before[k];
    }
  }

  /** Setting the low half of a token. */
  lemma RaiseToken(lits: seq<byte>, low: nat)
    requires low <= 15
    ensures WriteLiterals(lits, 0)[0] + low < 256
    ensures WriteLiterals(lits, low) == [WriteLiterals(lits, 0)[0] + low] + WriteLiterals(lits, 0)[1..]
  {
    var h := LengthTail(|lits|) + lits;
    assert WriteLiterals(lits, 0) == [16 * Nibble(|lits|)] + h;
    assert WriteLiterals(lits, low) == [16 * Nibble(|lits|) + low] + h;
  }

  method RaiseByte(dst: array<byte>, token: nat, op: nat, op': nat, low: nat, ghost head: seq<byte>,
                   ghost rest: seq<byte>)
    requires token < op <= op' <= dst.Length && dst[token] + low < 256
    requires dst[token..op] == head && dst[op..op'] == rest
    modifies dst
    ensures dst[token..op'] == [head[0] + low] + head[1..] + rest
    ensures forall k :: 0 <= k < token ==> dst[k] == old(dst[k])
  {
    dst[token] := dst[token] + low;
    assert dst[token..op'] == [dst[token]] + dst[token + 1..op] + dst[op..op'];
    assert dst[token + 1..op] == head[1..];
  }

  method PutOffset(dst: array<byte>, token: nat, op: nat, offset: nat, ghost lits: seq<byte>)
    requires token <= op && op + 2 <= dst.Length && dst[token..op] == WriteLiterals(lits, 0)
    modifies dst
    ensures dst[token..op + 2] == WriteLiterals(lits, 0) + ToLE(offset, 2)
    ensures forall k :: 0 <= k < op ==> dst[k] == old(dst[k])
  {
    ghost var head := dst[token..op];
    Put(dst, op, ToLE(offset, 2));
    assert dst[op..op + 2] == ToLE(offset, 2);
    assert dst[token..op + 2] == head + dst[op..op + 2];
  }

  /** The end of a sequence: the low half of the token and the rest of the match length. */
  method PutMatchLength(dst: array<byte>, token: nat, op: nat, code: nat, ghost lits: seq<byte>, ghost offset: nat)
    returns (op': nat)
    requires token < op && op + |LengthTail(code)| + 3 <= dst.Length
    requires dst[token..op] == WriteLiterals(lits, 0) + ToLE(offset, 2)
    modifies dst
    ensures op' == op + |LengthTail(code)|
    ensures dst[token..op'] == WriteSequence(lits, offset, code)
    ensures forall k :: 0 <= k < token ==> dst[k] == old(dst[k])
  {
    ghost var head := dst[token..op];
    SequenceShape(lits, offset, code);
    op' := op;
    if code >= 15 {
      op' := PutMatchRun(dst, op, code - 15);
    }
    assert dst[token..op] == head;
    RaiseByte(dst, token, op, op', Nibble(code), head, LengthTail(code));
  }

  /** A sequence is its literals with an empty low half, the offset, and the rest of the length, the half set. */
  lemma SequenceShape(lits: seq<byte>, offset: nat, code: nat)
    ensures var head := WriteLiterals(lits, 0) + ToLE(offset, 2);
            && head[0] + Nibble(code) < 256
            && [head[0] + Nibble(code)] + head[1..] + LengthTail(code) == WriteSequence(lits, offset, code)
  {
    RaiseToken(lits, Nibble(code));
    RaiseHead(WriteLiterals(lits, 0), ToLE(offset, 2), Nibble(code));
  }

  lemma RaiseHead(lits: seq<byte>, tail: seq<byte>, low: nat)
    requires lits != [] && lits[0] + low < 256
    ensures [(lits + tail)[0] + low] + (lits + tail)[1..] == [lits[0] + low] + lits[1..] + tail
  {
    assert (lits + tail)[1..] == lits[1..] + tail;
  }
}
