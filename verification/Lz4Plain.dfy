/** When the decoder agrees with the library's simple decoder: unless some match has offset 0. */
module Lz4Plain {
  import opened Bytes
  import opened Match
  import opened Options
  import opened Lz4Format

  // ---- offset 0, read off the block ----

  /** From a token on, some match of the block has offset 0. */
  predicate ZeroOffset(s: seq<byte>)
    decreases |s|, 0
  {
    if s == [] then false
    else if s[0] / 16 < 15 then ZeroBehind(s[0], s[0] / 16, s[1..])
    else
      var run := ReadRun(s[1..]);
      run.Some? && ZeroBehind(s[0], 15 + run.value.0, s[1 + run.value.1..])
  }

  /** From `len` literals on. */
  predicate ZeroBehind(token: byte, len: nat, s: seq<byte>)
    decreases |s|, 2
  {
    len + 2 <= |s| && (LE(s[len..][..2]) == 0 || ZeroAfter(token % 16, s[len..][2..]))
  }

  /** From the extra bytes of a match length on. */
  predicate ZeroAfter(code: nat, s: seq<byte>)
    decreases |s|, 1
  {
    if code < 15 then ZeroOffset(s) else ReadRun(s).Some? && ZeroOffset(s[ReadRun(s).value.1..])
  }

  // ---- both decoders accept the same blocks ----

  lemma CopiedSize(rule: Rule, out: seq<byte>, offset: nat, len: nat)
    requires offset <= |out|
    ensures |Copied(rule, out, offset, len)| == |out| + len
    ensures out <= Copied(rule, out, offset, len)
  {
    if offset > 0 {
      CopyMatchRepeats(out, offset, len);
    }
  }

  lemma {:induction false} SameAcceptance(s: seq<byte>, a: seq<byte>, b: seq<byte>, n: nat, memory: nat -> byte)
    requires |a| == |b|
    ensures Decode(s, a, Plain(n, memory)).Some? <==> Decode(s, b, Total(n)).Some?
    decreases |s|, 0
  {
    if s == [] {
    } else if s[0] / 16 < 15 {
      SameLiterals(s[0], s[0] / 16, s[1..], a, b, n, memory);
    } else if ReadRun(s[1..]).Some? {
      var run := ReadRun(s[1..]).value;
      SameLiterals(s[0], 15 + run.0, s[1 + run.1..], a, b, n, memory);
    }
  }

  lemma {:induction false} SameLiterals(token: byte, len: nat, s: seq<byte>, a: seq<byte>, b: seq<byte>, n: nat,
                                        memory: nat -> byte)
    requires |a| == |b|
    ensures Literals(token, len, s, a, Plain(n, memory)).Some? <==> Literals(token, len, s, b, Total(n)).Some?
    decreases |s|, 2
  {
    if len + 2 <= |s| {
      var t := s[len..];
      SameLength(token % 16, LE(t[..2]), t[2..], a + s[..len], b + s[..len], n, memory);
    }
  }

  lemma {:induction false} SameLength(code: nat, offset: nat, s: seq<byte>, a: seq<byte>, b: seq<byte>, n: nat,
                                      memory: nat -> byte)
    requires |a| == |b|
    ensures MatchLength(code, offset, s, a, Plain(n, memory)).Some? <==> MatchLength(code, offset, s, b, Total(n)).Some?
    decreases |s|, 1
  {
    if offset > |a| {
    } else if code < 15 {
      var len := code + MINMATCH;
      CopiedSize(Plain(n, memory), a, offset, len);
      CopiedSize(Total(n), b, offset, len);
      SameAcceptance(s, Copied(Plain(n, memory), a, offset, len), Copied(Total(n), b, offset, len), n, memory);
    } else if ReadRun(s).Some? {
      var len, t := 15 + ReadRun(s).value.0 + MINMATCH, s[ReadRun(s).value.1..];
      CopiedSize(Plain(n, memory), a, offset, len);
      CopiedSize(Total(n), b, offset, len);
      SameAcceptance(t, Copied(Plain(n, memory), a, offset, len), Copied(Total(n), b, offset, len), n, memory);
    }
  }

  // ---- without offset 0 they decode to the same bytes ----

  lemma {:induction false} SameBytes(s: seq<byte>, out: seq<byte>, n: nat, memory: nat -> byte)
    requires !ZeroOffset(s)
    ensures Decode(s, out, Plain(n, memory)) == Decode(s, out, Total(n))
    decreases |s|, 0
  {
    if s == [] {
    } else if s[0] / 16 < 15 {
      SameBytesBehind(s[0], s[0] / 16, s[1..], out, n, memory);
    } else if ReadRun(s[1..]).Some? {
      var run := ReadRun(s[1..]).value;
      SameBytesBehind(s[0], 15 + run.0, s[1 + run.1..], out, n, memory);
    }
  }

  lemma {:induction false} SameBytesBehind(token: byte, len: nat, s: seq<byte>, out: seq<byte>, n: nat,
                                           memory: nat -> byte)
    requires !ZeroBehind(token, len, s)
    ensures Literals(token, len, s, out, Plain(n, memory)) == Literals(token, len, s, out, Total(n))
    decreases |s|, 2
  {
    if len + 2 <= |s| {
      var t := s[len..];
      SameBytesAfter(token % 16, LE(t[..2]), t[2..], out + s[..len], n, memory);
    }
  }

  lemma {:induction false} SameBytesAfter(code: nat, offset: nat, s: seq<byte>, out: seq<byte>, n: nat,
                                          memory: nat -> byte)
    requires offset > 0 && !ZeroAfter(code, s)
    ensures MatchLength(code, offset, s, out, Plain(n, memory)) == MatchLength(code, offset, s, out, Total(n))
    decreases |s|, 1
  {
    if offset > |out| {
    } else if code < 15 {
      SameBytes(s, Extend(out, offset, code + MINMATCH), n, memory);
    } else if ReadRun(s).Some? {
      SameBytes(s[ReadRun(s).value.1..], Extend(out, offset, 15 + ReadRun(s).value.0 + MINMATCH), n, memory);
    }
  }

  // ---- with it they do not, whatever comes after ----

  lemma {:induction false} OutputGrows(s: seq<byte>, out: seq<byte>, rule: Rule)
    ensures Decode(s, out, rule).Some? ==> out <= Decode(s, out, rule).value
    decreases |s|, 0
  {
    if s == [] {
    } else if s[0] / 16 < 15 {
      OutputGrowsBehind(s[0], s[0] / 16, s[1..], out, rule);
    } else if ReadRun(s[1..]).Some? {
      var run := ReadRun(s[1..]).value;
      OutputGrowsBehind(s[0], 15 + run.0, s[1 + run.1..], out, rule);
    }
  }

  lemma {:induction false} OutputGrowsBehind(token: byte, len: nat, s: seq<byte>, out: seq<byte>, rule: Rule)
    ensures Literals(token, len, s, out, rule).Some? ==> out <= Literals(token, len, s, out, rule).value
    decreases |s|, 2
  {
    if len + 2 <= |s| {
      var t := s[len..];
      OutputGrowsAfter(token % 16, LE(t[..2]), t[2..], out + s[..len], rule);
    }
  }

  lemma {:induction false} OutputGrowsAfter(code: nat, offset: nat, s: seq<byte>, out: seq<byte>, rule: Rule)
    ensures MatchLength(code, offset, s, out, rule).Some? ==> out <= MatchLength(code, offset, s, out, rule).value
    decreases |s|, 1
  {
    if offset > |out| {
    } else if code < 15 {
      CopiedSize(rule, out, offset, code + MINMATCH);
      OutputGrows(s, Copied(rule, out, offset, code + MINMATCH), rule);
    } else if ReadRun(s).Some? {
      var len, t := 15 + ReadRun(s).value.0 + MINMATCH, s[ReadRun(s).value.1..];
      CopiedSize(rule, out, offset, len);
      OutputGrows(t, Copied(rule, out, offset, len), rule);
    }
  }

  /** Over a buffer of ones, the two differ where the first match with offset 0 begins. */
  ghost predicate Differ(a: Option<seq<byte>>, b: Option<seq<byte>>)
  {
    a.Some? && b.Some? && a != b
  }

  function Ones(): (rule: nat -> byte)
  {
    _ => 1
  }

  lemma {:induction false} ZeroDiffers(s: seq<byte>, out: seq<byte>, n: nat)
    requires ZeroOffset(s) && Decode(s, out, Total(n)).Some?
    ensures Differ(Decode(s, out, Plain(n, Ones())), Decode(s, out, Total(n)))
    decreases |s|, 0
  {
    if s[0] / 16 < 15 {
      ZeroDiffersBehind(s[0], s[0] / 16, s[1..], out, n);
    } else {
      var run := ReadRun(s[1..]).value;
      ZeroDiffersBehind(s[0], 15 + run.0, s[1 + run.1..], out, n);
    }
  }

  lemma {:induction false} ZeroDiffersBehind(token: byte, len: nat, s: seq<byte>, out: seq<byte>, n: nat)
    requires ZeroBehind(token, len, s) && Literals(token, len, s, out, Total(n)).Some?
    ensures Differ(Literals(token, len, s, out, Plain(n, Ones())), Literals(token, len, s, out, Total(n)))
    decreases |s|, 2
  {
    var t, out' := s[len..], out + s[..len];
    var code, offset, u := token % 16, LE(t[..2]), t[2..];
    assert MatchLength(code, offset, u, out', Total(n)).Some?;
    if offset == 0 {
      ZeroDiffersHere(code, u, out', n);
    } else {
      ZeroDiffersAfter(code, offset, u, out', n);
    }
  }

  lemma {:induction false} ZeroDiffersAfter(code: nat, offset: nat, s: seq<byte>, out: seq<byte>, n: nat)
    requires offset > 0 && ZeroAfter(code, s) && MatchLength(code, offset, s, out, Total(n)).Some?
    ensures Differ(MatchLength(code, offset, s, out, Plain(n, Ones())), MatchLength(code, offset, s, out, Total(n)))
    decreases |s|, 1
  {
    if code < 15 {
      ZeroDiffers(s, Extend(out, offset, code + MINMATCH), n);
    } else {
      ZeroDiffers(s[ReadRun(s).value.1..], Extend(out, offset, 15 + ReadRun(s).value.0 + MINMATCH), n);
    }
  }

  lemma ZeroDiffersHere(code: nat, s: seq<byte>, out: seq<byte>, n: nat)
    requires MatchLength(code, 0, s, out, Total(n)).Some?
    ensures Differ(MatchLength(code, 0, s, out, Plain(n, Ones())), MatchLength(code, 0, s, out, Total(n)))
  {
    var len := if code < 15 then code + MINMATCH else 15 + ReadRun(s).value.0 + MINMATCH;
    var t := if code < 15 then s else s[ReadRun(s).value.1..];
    var a, b := Copied(Plain(n, Ones()), out, 0, len), Copied(Total(n), out, 0, len);
    assert a[|out|] == 1 && b[|out|] == 0;
    SameAcceptance(t, a, b, n, Ones());
    OutputGrows(t, a, Plain(n, Ones()));
    OutputGrows(t, b, Total(n));
    assert Decode(t, a, Plain(n, Ones())).value[|out|] == 1 && Decode(t, b, Total(n)).value[|out|] == 0;
  }

  /**
   * A block that obeys the end rules is accepted by the simple decoder too. It decodes to the same
   * bytes over every buffer if and only if none of its matches has offset 0.
   */
  lemma AgreesUnlessZeroOffset(s: seq<byte>, n: nat, memory: nat -> byte)
    ensures Decode(s, [], Plain(n, memory)).Some? <==> Decode(s, [], Total(n)).Some?
    ensures !ZeroOffset(s) ==> Decode(s, [], Plain(n, memory)) == Decode(s, [], Total(n))
    ensures ZeroOffset(s) && Decode(s, [], Total(n)).Some? ==>
            Decode(s, [], Plain(n, Ones())) != Decode(s, [], Total(n))
  {
    SameAcceptance(s, [], [], n, memory);
    if !ZeroOffset(s) {
      SameBytes(s, [], n, memory);
    } else if Decode(s, [], Total(n)).Some? {
      ZeroDiffers(s, [], n);
    }
  }

  /** A match with offset 0, and eight last literals. */
  const ZERO_BLOCK: seq<byte> := [0, 0, 0, 128, 1, 2, 3, 4, 5, 6, 7, 8]

  lemma ZeroBlockDecodes(rule: Rule)
    requires !rule.Free? && rule.size == 12
    ensures ZeroOffset(ZERO_BLOCK)
    ensures Decode(ZERO_BLOCK, [], rule) == Some(Copied(rule, [], 0, 4) + ZERO_BLOCK[4..])
  {
    var s, t, last := ZERO_BLOCK[1..], ZERO_BLOCK[3..], ZERO_BLOCK[4..];
    assert s[0..] == s && s[..2] == [0, 0] && s[2..] == t && t[1..] == last && last[..8] == last;
    assert LE([0, 0]) == 0 by { assert LE([0]) == 0 && [0, 0][1..] == [0]; }
    var out := Copied(rule, [], 0, 4);
    assert Literals(128, 8, last, out, rule) == Some(out + last);
    assert Decode(t, out, rule) == Some(out + last);
    assert MatchLength(0, 0, t, [], rule) == Some(out + last);
    assert Offset(0, s, [], rule) == Some(out + last);
    assert [] + s[..0] == [];
  }

  /** The decoder makes zeros of it, the simple one leaves the ones that were there. */
  lemma ZeroOffsetBlock()
    ensures Decode(ZERO_BLOCK, [], Total(12)) == Some([0, 0, 0, 0] + ZERO_BLOCK[4..])
    ensures Decode(ZERO_BLOCK, [], Plain(12, Ones())) == Some([1, 1, 1, 1] + ZERO_BLOCK[4..])
  {
    ZeroBlockDecodes(Total(12));
    ZeroBlockDecodes(Plain(12, Ones()));
    assert Copied(Total(12), [], 0, 4) == [0, 0, 0, 0] && Copied(Plain(12, Ones()), [], 0, 4) == [1, 1, 1, 1];
  }

  /** A block of no bytes whose token asks for a match that never comes: any simple decoder takes it. */
  lemma EmptyBlock(token: byte, memory: nat -> byte)
    requires token < 16
    ensures Decode([token], [], Total(0)) == Some([]) && Decode([token], [], Plain(0, memory)) == Some([])
  {
    assert [token][1..] == [];
  }
}
