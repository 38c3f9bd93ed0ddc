/**
 * The LZ4 block format: a staged reference decoder that copies byte at a time, under three rules.
 * `Free` only parses. `Total(n)` adds the end-of-block rules for a block of `n` bytes. `Plain` is the
 * simple decoder kept beside the fast one: the same rules over a buffer that already holds something,
 * where a match with offset 0 copies every byte onto itself. The other two make it zeros.
 */
module Lz4Format {
  import opened Bytes
  import opened Match
  import opened Options

  datatype Rule = Free | Total(size: nat) | Plain(size: nat, memory: nat -> byte)

  const MINMATCH: nat := 4
  const LASTLITERALS: nat := 5
  const MFLIMIT: nat := 12

  // ---- lengths ----

  /** A run of 255s closed by a smaller byte: the value it adds up to, and its size. */
  function ReadRun(s: seq<byte>): (r: Option<(nat, nat)>)
    ensures r.Some? ==> 1 <= r.value.1 <= |s|
  {
    if s == [] then None
    else if s[0] != 255 then Some((s[0], 1))
    else
      var r := ReadRun(s[1..]);
      if r.None? then None else Some((255 + r.value.0, 1 + r.value.1))
  }

  function WriteRun(v: nat): (s: seq<byte>)
    ensures |s| == v / 255 + 1
  {
    if v < 255 then [v] else [255] + WriteRun(v - 255)
  }

  lemma {:induction false} RunRoundTrip(v: nat, rest: seq<byte>)
    ensures ReadRun(WriteRun(v) + rest) == Some((v, |WriteRun(v)|))
  {
    if v < 255 {
    } else {
      RunRoundTrip(v - 255, rest);
      assert (WriteRun(v) + rest)[1..] == WriteRun(v - 255) + rest;
    }
  }

  // ---- matches ----

  /** `len` bytes copied from `offset` back; zeros if the offset is 0, which no encoder emits. */
  function Extend(out: seq<byte>, offset: nat, len: nat): (r: seq<byte>)
    requires offset <= |out|
  {
    if offset == 0 then out + seq(len, _ => 0) else CopyMatch(out, offset, len)
  }

  lemma ExtendSize(out: seq<byte>, offset: nat, len: nat)
    requires offset <= |out|
    ensures |Extend(out, offset, len)| == |out| + len
  {
    if offset > 0 {
      CopyMatchRepeats(out, offset, len);
    }
  }

  // ---- the reference decoder, one function per stage of a sequence ----

  /** At a token. */
  function Decode(s: seq<byte>, out: seq<byte>, rule: Rule): (r: Option<seq<byte>>)
    decreases |s|, 0
  {
    if s == [] then None
    else if s[0] / 16 < 15 then Literals(s[0], s[0] / 16, s[1..], out, rule)
    else
      var run := ReadRun(s[1..]);
      if run.None? then None
      else Literals(s[0], 15 + run.value.0, s[1 + run.value.1..], out, rule)
  }

  /** At the literals of a sequence, `len` bytes long. */
  function Literals(token: byte, len: nat, s: seq<byte>, out: seq<byte>, rule: Rule): (r: Option<seq<byte>>)
    decreases |s|, 4
  {
    if len > |s| then None
    else
      var out' := out + s[..len];
      match rule
      case Free => if len == |s| then Some(out') else Offset(token, s[len..], out', rule)
      case _ =>
        if |out'| > rule.size then None
        else if rule.size - |out'| < MFLIMIT then if |out'| == rule.size && len == |s| then Some(out') else None
        else Offset(token, s[len..], out', rule)
  }

  /** At the two bytes of an offset. */
  function Offset(token: byte, s: seq<byte>, out: seq<byte>, rule: Rule): (r: Option<seq<byte>>)
    decreases |s|, 3
  {
    if |s| < 2 then None else MatchLength(token % 16, LE(s[..2]), s[2..], out, rule)
  }

  /** At the extra bytes of a match length, if the code asks for them. */
  function MatchLength(code: nat, offset: nat, s: seq<byte>, out: seq<byte>, rule: Rule): (r: Option<seq<byte>>)
    decreases |s|, 2
  {
    if code < 15 then MatchCopy(offset, code + MINMATCH, s, out, rule)
    else
      var run := ReadRun(s);
      if run.None? then None
      else MatchCopy(offset, 15 + run.value.0 + MINMATCH, s[run.value.1..], out, rule)
  }

  /** Before a match is copied; then on to the next token. */
  function MatchCopy(offset: nat, len: nat, s: seq<byte>, out: seq<byte>, rule: Rule): (r: Option<seq<byte>>)
    decreases |s|, 1
  {
    if offset > |out| then None
    else if !rule.Free? && |out| + len + LASTLITERALS > rule.size then None
    else Decode(s, Copied(rule, out, offset, len), rule)
  }

  /** A match, copied; the simple decoder leaves what is there if the offset is 0. */
  function Copied(rule: Rule, out: seq<byte>, offset: nat, len: nat): (r: seq<byte>)
    requires offset <= |out|
  {
    if rule.Plain? && offset == 0 then out + seq(len, i requires 0 <= i => rule.memory(|out| + i))
      else Extend(out, offset, len)
  }

  // ---- with and without the end rules ----

  /** What is accepted under the end rules is decoded without them to the same `n` bytes. */
  ghost predicate Agree(total: Option<seq<byte>>, free: Option<seq<byte>>, n: nat)
  {
    total.Some? ==> free == total && |total.value| == n
  }

  lemma {:induction false} TotalIsFree(s: seq<byte>, out: seq<byte>, n: nat)
    ensures Agree(Decode(s, out, Total(n)), Decode(s, out, Free), n)
    decreases |s|, 0
  {
    if s == [] {
    } else {
      if s[0] / 16 < 15 {
        TotalIsFreeLiterals(s[0], s[0] / 16, s[1..], out, n);
      } else if ReadRun(s[1..]).Some? {
        var run := ReadRun(s[1..]).value;
        TotalIsFreeLiterals(s[0], 15 + run.0, s[1 + run.1..], out, n);
      }
    }
  }

  lemma {:induction false} TotalIsFreeLiterals(token: byte, len: nat, s: seq<byte>, out: seq<byte>, n: nat)
    ensures Agree(Literals(token, len, s, out, Total(n)), Literals(token, len, s, out, Free), n)
    decreases |s|, 4
  {
    if len <= |s| {
      TotalIsFreeOffset(token, s[len..], out + s[..len], n);
    }
  }

  lemma {:induction false} TotalIsFreeOffset(token: byte, s: seq<byte>, out: seq<byte>, n: nat)
    ensures Agree(Offset(token, s, out, Total(n)), Offset(token, s, out, Free), n)
    decreases |s|, 3
  {
    if |s| >= 2 {
      TotalIsFreeLength(token % 16, LE(s[..2]), s[2..], out, n);
    }
  }

  lemma {:induction false} TotalIsFreeLength(code: nat, offset: nat, s: seq<byte>, out: seq<byte>, n: nat)
    ensures Agree(MatchLength(code, offset, s, out, Total(n)), MatchLength(code, offset, s, out, Free), n)
    decreases |s|, 2
  {
    if code < 15 {
      TotalIsFreeCopy(offset, code + MINMATCH, s, out, n);
    } else if ReadRun(s).Some? {
      TotalIsFreeCopy(offset, 15 + ReadRun(s).value.0 + MINMATCH, s[ReadRun(s).value.1..], out, n);
    }
  }

  lemma {:induction false} TotalIsFreeCopy(offset: nat, len: nat, s: seq<byte>, out: seq<byte>, n: nat)
    ensures Agree(MatchCopy(offset, len, s, out, Total(n)), MatchCopy(offset, len, s, out, Free), n)
    decreases |s|, 1
  {
    if offset <= |out| {
      TotalIsFree(s, Extend(out, offset, len), n);
    }
  }

  /** Under the end-of-block rules, the last literals are still in the input after every match. */
  lemma {:induction false} TotalNeedsInput(s: seq<byte>, out: seq<byte>, n: nat)
    requires Decode(s, out, Total(n)).Some? && |out| + LASTLITERALS <= n
    ensures |s| >= 1 + LASTLITERALS
    decreases |s|, 0
  {
    if s[0] / 16 < 15 {
      TotalNeedsLiterals(s[0], s[0] / 16, s[1..], out, n);
    } else {
      var run := ReadRun(s[1..]).value;
      TotalNeedsLiterals(s[0], 15 + run.0, s[1 + run.1..], out, n);
    }
  }

  lemma {:induction false} TotalNeedsLiterals(token: byte, len: nat, s: seq<byte>, out: seq<byte>, n: nat)
    requires Literals(token, len, s, out, Total(n)).Some?
    ensures |s| >= len && (|out| + LASTLITERALS <= n ==> |s| >= LASTLITERALS)
    ensures n - |out| - len >= MFLIMIT ==> |s| >= len + 2 + 1 + LASTLITERALS
    decreases |s|, 4
  {
    var t, out' := s[len..], out + s[..len];
    if n - |out'| >= MFLIMIT {
      var code, offset, u := token % 16, LE(t[..2]), t[2..];
      assert MatchLength(code, offset, u, out', Total(n)).Some?;
      TotalNeedsMatch(code, offset, u, out', n);
    }
  }

  lemma {:induction false} TotalNeedsMatch(code: nat, offset: nat, s: seq<byte>, out: seq<byte>, n: nat)
    requires MatchLength(code, offset, s, out, Total(n)).Some?
    ensures |s| >= 1 + LASTLITERALS
    decreases |s|, 2
  {
    if code < 15 {
      TotalNeedsCopy(offset, code + MINMATCH, s, out, n);
    } else {
      TotalNeedsCopy(offset, 15 + ReadRun(s).value.0 + MINMATCH, s[ReadRun(s).value.1..], out, n);
    }
  }

  lemma {:induction false} TotalNeedsCopy(offset: nat, len: nat, s: seq<byte>, out: seq<byte>, n: nat)
    requires MatchCopy(offset, len, s, out, Total(n)).Some?
    ensures |s| >= 1 + LASTLITERALS
    decreases |s|, 1
  {
    ExtendSize(out, offset, len);
    TotalNeedsInput(s, Extend(out, offset, len), n);
  }
}
