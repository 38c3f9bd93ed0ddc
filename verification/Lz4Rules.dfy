/** The end rules of an LZ4 block, in numbers: which blocks they admit, and a block at their limits. */
module Lz4Rules {
  import opened Bytes
  import opened Match
  import opened Options
  import opened Lz4Format

  // ---- where the matches of a block lie ----

  /** The bytes of the output that a match makes: from `start` to before `end`. */
  datatype Span = Span(start: nat, end: nat)

  /** The matches from a token on, with `at` bytes of output before it. */
  function Spans(s: seq<byte>, at: nat): (ms: seq<Span>)
    decreases |s|, 0
  {
    if s == [] then []
    else if s[0] < 0xF0 then SpansBehind(s[0] % 16, s[0] / 16, s[1..], at)
    else if ReadRun(s[1..]).None? then []
    else SpansBehind(s[0] % 16, 15 + ReadRun(s[1..]).value.0, s[1 + ReadRun(s[1..]).value.1..], at)
  }

  /** From `len` literals on; behind the last ones comes no offset. */
  function SpansBehind(code: nat, len: nat, s: seq<byte>, at: nat): (ms: seq<Span>)
    decreases |s|, 2
  {
    if len + 2 > |s| then [] else SpansAfter(code, s[len + 2..], at + len)
  }

  /** From the extra bytes of a match length on. */
  function SpansAfter(code: nat, s: seq<byte>, at: nat): (ms: seq<Span>)
    decreases |s|, 1
  {
    if code < 15 then [Span(at, at + 4 + code)] + Spans(s, at + 4 + code)
    else if ReadRun(s).None? then []
    else
      var end := at + 19 + ReadRun(s).value.0;
      [Span(at, end)] + Spans(s[ReadRun(s).value.1..], end)
  }

  /** In a block of `n` bytes, no match starts in the last 11 bytes or reaches into the last 5. */
  predicate Early(ms: seq<Span>, n: nat)
  {
    forall i :: 0 <= i < |ms| ==> ms[i].start + 12 <= n && ms[i].end + 5 <= n
  }

  lemma EarlyNext(m: Span, ms: seq<Span>, n: nat)
    ensures Early([m] + ms, n) <==> m.start + 12 <= n && m.end + 5 <= n && Early(ms, n)
  {
    var all := [m] + ms;
    assert all[0] == m && forall i :: 0 <= i < |ms| ==> all[i + 1] == ms[i];
    if Early(all, n) {
      forall i | 0 <= i < |ms| ensures ms[i].start + 12 <= n && ms[i].end + 5 <= n {
        assert all[i + 1] == ms[i];
      }
    }
  }

  // ---- the rules ----

  /** Accepted under the rules for `n` bytes: it parses to `n` bytes, and its matches are early. */
  ghost predicate Rules(total: Option<seq<byte>>, free: Option<seq<byte>>, ms: seq<Span>, n: nat)
  {
    total.Some? <==> free.Some? && |free.value| == n && Early(ms, n)
  }

  lemma {:induction false} RulesAtToken(s: seq<byte>, out: seq<byte>, n: nat)
    ensures Rules(Decode(s, out, Total(n)), Decode(s, out, Free), Spans(s, |out|), n)
    decreases |s|, 0
  {
    if s == [] {
    } else if s[0] / 16 < 15 {
      RulesAtLiterals(s[0], s[0] / 16, s[1..], out, n);
    } else if ReadRun(s[1..]).Some? {
      var run := ReadRun(s[1..]).value;
      RulesAtLiterals(s[0], 15 + run.0, s[1 + run.1..], out, n);
    }
  }

  lemma {:induction false} RulesAtLiterals(token: byte, len: nat, s: seq<byte>, out: seq<byte>, n: nat)
    ensures Rules(Literals(token, len, s, out, Total(n)), Literals(token, len, s, out, Free),
                  SpansBehind(token % 16, len, s, |out|), n)
    decreases |s|, 4
  {
    if len + 2 <= |s| {
      var t, out' := s[len..], out + s[..len];
      assert t[2..] == s[len + 2..];
      if |out'| + 12 <= n {
        RulesAtMatch(token % 16, LE(t[..2]), t[2..], out', n);
      } else {
        FirstIsHere(token % 16, LE(t[..2]), t[2..], out');
        assert Early(SpansBehind(token % 16, len, s, |out|), n) ==> Offset(token, t, out', Free).None?;
      }
    }
  }

  /** A block that goes on with a match has one that starts here. */
  lemma FirstIsHere(code: nat, offset: nat, s: seq<byte>, out: seq<byte>)
    ensures MatchLength(code, offset, s, out, Free).Some? ==>
              SpansAfter(code, s, |out|) != [] && SpansAfter(code, s, |out|)[0].start == |out|
  {
  }

  lemma {:induction false} RulesAtMatch(code: nat, offset: nat, s: seq<byte>, out: seq<byte>, n: nat)
    requires |out| + 12 <= n
    ensures Rules(MatchLength(code, offset, s, out, Total(n)), MatchLength(code, offset, s, out, Free),
                  SpansAfter(code, s, |out|), n)
    decreases |s|, 2
  {
    if code < 15 {
      RulesAtCopy(offset, 4 + code, s, out, n);
    } else if ReadRun(s).Some? {
      RulesAtCopy(offset, 19 + ReadRun(s).value.0, s[ReadRun(s).value.1..], out, n);
    }
  }

  lemma {:induction false} RulesAtCopy(offset: nat, len: nat, s: seq<byte>, out: seq<byte>, n: nat)
    requires |out| + 12 <= n
    ensures Rules(MatchCopy(offset, len, s, out, Total(n)), MatchCopy(offset, len, s, out, Free),
                  [Span(|out|, |out| + len)] + Spans(s, |out| + len), n)
    decreases |s|, 1
  {
    EarlyNext(Span(|out|, |out| + len), Spans(s, |out| + len), n);
    if offset <= |out| {
      ExtendSize(out, offset, len);
      RulesAtToken(s, Extend(out, offset, len), n);
    }
  }

  /**
   * The end rules: a block is accepted for `n` bytes if and only if it parses to `n` bytes, none of its
   * matches starts later than 12 bytes before the end, and none ends later than 5 bytes before it.
   */
  lemma EndRules(s: seq<byte>, n: nat)
    ensures Decode(s, [], Total(n)).Some? <==>
              Decode(s, [], Free).Some? && |Decode(s, [], Free).value| == n && Early(Spans(s, 0), n)
    ensures Early(Spans(s, 0), n) <==> forall m :: m in Spans(s, 0) ==> m.start + 12 <= n && m.end + 5 <= n
    ensures Decode(s, [], Total(n)).Some? ==> Decode(s, [], Total(n)) == Decode(s, [], Free)
  {
    var none: seq<byte> := [];
    assert |none| == 0;
    RulesAtToken(s, none, n);
    TotalIsFree(s, none, n);
  }

  // ---- length bytes ----

  /** What the extra bytes of a length mean: the 255s and the first other byte, added up. */
  lemma {:induction false} RunMeans(s: seq<byte>, n: nat)
    requires n <= |s| && forall k :: 0 <= k < n ==> s[k] == 255
    ensures n == |s| ==> ReadRun(s).None?
    ensures n < |s| && s[n] != 255 ==> ReadRun(s) == Some((255 * n + s[n], n + 1))
    decreases n
  {
    if n == 0 {
    } else {
      RunMeans(s[1..], n - 1);
    }
  }

  // ---- a block at the limits ----

  /** The library's block for "aaaaaaaabcdef": its match starts 12 bytes before the end and stops at 5. */
  const LIMIT_BLOCK: seq<byte> := [19, 97, 1, 0, 80, 98, 99, 100, 101, 102]

  const LIMIT_TEXT: seq<byte> := [97, 97, 97, 97, 97, 97, 97, 97, 98, 99, 100, 101, 102]

  lemma LimitBlockDecodes()
    ensures Spans(LIMIT_BLOCK, 0) == [Span(1, 8)]
    ensures Decode(LIMIT_BLOCK, [], Total(13)) == Some(LIMIT_TEXT)
    ensures Decode(LIMIT_BLOCK, [], Total(12)).None? && Decode(LIMIT_BLOCK, [], Total(14)).None?
  {
    LimitBlockSpans();
    LimitBlockParses();
    forall n: nat ensures Decode(LIMIT_BLOCK, [], Total(n)).Some? <==> n == 13 {
      EndRules(LIMIT_BLOCK, n);
    }
    EndRules(LIMIT_BLOCK, 13);
  }

  lemma LimitBlockSpans()
    ensures Spans(LIMIT_BLOCK, 0) == [Span(1, 8)]
  {
    var s := LIMIT_BLOCK;
    assert s[1..][3..] == [80, 98, 99, 100, 101, 102];
    assert Spans(s, 0) == SpansBehind(3, 1, s[1..], 0) == SpansAfter(3, s[4..], 1) == [Span(1, 8)] + Spans(s[4..], 8);
    assert Spans(s[4..], 8) == SpansBehind(0, 5, s[4..][1..], 8) == [];
  }

  lemma LimitBlockParses()
    ensures Decode(LIMIT_BLOCK, [], Free) == Some(LIMIT_TEXT)
  {
    var s := LIMIT_BLOCK;
    LimitFirst(s, s[1..], s[2..]);
    LimitOffset(s[2..], s[4..]);
    LimitMatch();
    LimitLast(s[4..]);
  }

  lemma LimitFirst(s: seq<byte>, t: seq<byte>, u: seq<byte>)
    requires s == [19] + t && t == [97] + u && u != []
    ensures Decode(s, [], Free) == Offset(19, u, [97], Free)
  {
    assert s[1..] == t && [] + t[..1] == [97] && t[1..] == u;
    assert Decode(s, [], Free) == Literals(19, 1, t, [], Free);
  }

  lemma LimitOffset(s: seq<byte>, t: seq<byte>)
    requires s == [1, 0] + t
    ensures Offset(19, s, [97], Free) == Decode(t, Extend([97], 1, 7), Free)
  {
    LEOfTwo(s[..2]);
    assert s[2..] == t;
    assert MatchLength(3, 1, t, [97], Free) == MatchCopy(1, 7, t, [97], Free);
  }

  lemma LimitLast(s: seq<byte>)
    requires s == [80, 98, 99, 100, 101, 102]
    ensures Decode(s, [97, 97, 97, 97, 97, 97, 97, 97], Free) == Some(LIMIT_TEXT)
  {
    var out: seq<byte> := [97, 97, 97, 97, 97, 97, 97, 97];
    assert s[0] == 80 && |s[1..]| == 5;
    assert out + s[1..][..5] == LIMIT_TEXT;
  }

  lemma LimitMatch()
    ensures Extend([97], 1, 7) == [97, 97, 97, 97, 97, 97, 97, 97]
  {
    CopyMatchRepeats([97], 1, 7);
  }
}
