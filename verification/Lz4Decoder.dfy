/** `LZ4_decompress_safe`: the fast and the safe loop, against the reference decoder. */
module Lz4Decoder {
  import opened Bytes
  import opened Options
  import opened Lz4Format
  import opened Lz4Plain
  import opened Lz4Rules
  import opened Lz4Copy

  // ---- where in a sequence the decoder stands ----

  /** The points at which the loops hand over to each other: a token and the three labels inside. */
  datatype Stage =
    | AtToken
    | AtLiterals(token: byte, litLen: nat)
    | AtLength(code: nat, offset: nat)
    | AtMatch(offset: nat, len: nat)

  datatype Next = Go(stage: Stage) | Done | Fail

  /** What the reference decoder makes of the rest of the input from a stage. */
  ghost function Rest(at: Stage, s: seq<byte>, out: seq<byte>, rule: Rule): (r: Option<seq<byte>>)
  {
    match at
    case AtToken => Decode(s, out, rule)
    case AtLiterals(token, len) => Literals(token, len, s, out, rule)
    case AtLength(code, offset) => MatchLength(code, offset, s, out, rule)
    case AtMatch(offset, len) => MatchCopy(offset, len, s, out, rule)
  }

  /** Both strengths of the reference go on from the second state as they do from the first. */
  ghost predicate Leads(n: nat, at: Stage, s: seq<byte>, out: seq<byte>, at': Stage, s': seq<byte>, out': seq<byte>)
  {
    && Rest(at, s, out, Free) == Rest(at', s', out', Free)
    && (Rest(at, s, out, Total(n)).Some? ==> Rest(at, s, out, Total(n)) == Rest(at', s', out', Total(n)))
  }

  /** How one move of the decoder must relate to the reference. */
  ghost predicate Moves(n: nat, at: Stage, s: seq<byte>, out: seq<byte>, next: Next, s': seq<byte>, out': seq<byte>)
  {
    match next
    case Go(at') => Leads(n, at, s, out, at', s', out')
    case Done => Rest(at, s, out, Free) == Some(out')
    case Fail => Rest(at, s, out, Total(n)).None?
  }

  /** The room in the input and the output that the code relies on at each stage. */
  predicate Fits(at: Stage, ip: nat, inputSize: nat, op: nat, outputSize: nat)
  {
    match at
    case AtToken => ip < inputSize && op <= outputSize
    case AtLiterals(_, _) => ip <= inputSize && op <= outputSize
    case AtLength(code, _) => ip < inputSize && op + MFLIMIT <= outputSize && code <= 15
    case AtMatch(_, len) => ip < inputSize && op + MFLIMIT <= outputSize && len >= MINMATCH
  }

  // ---- lengths ----

  /** `read_variable_length`: reads a run of 255s, refusing to pass `ilimit`. */
  method ReadVariableLength(src: seq<byte>, ip: nat, ilimit: int, initialCheck: bool)
    returns (ok: bool, length: nat, ip': nat)
    requires ilimit < |src| && ip <= |src| && (initialCheck || ip < |src|)
    ensures ip <= ip' <= |src|
    ensures ok <==> ReadRun(src[ip..]).Some? && ip + ReadRun(src[ip..]).value.1 <= ilimit
    ensures ok ==> ReadRun(src[ip..]) == Some((length, ip' - ip))
  {
    length, ip' := 0, ip;
    if initialCheck && ip >= ilimit {
      return false, 0, ip;
    }
    ghost var s := src[ip..];
    while true
      invariant ip <= ip' < |src| && (ip' == ip || ip' <= ilimit)
      invariant var r, t := ReadRun(s), ReadRun(src[ip'..]);
                r.Some? == t.Some? && (r.Some? ==> r.value == (length + t.value.0, ip' - ip + t.value.1))
      decreases |src| - ip'
    {
      var b := src[ip'];
      ghost var t := src[ip'..];
      assert t[0] == b && t[1..] == src[ip' + 1..];
      ip' := ip' + 1;
      length := length + b;
      if ip' > ilimit {
        return false, length, ip';
      }
      if b != 255 {
        return true, length, ip';
      }
    }
  }

  // ---- the reference decoder, stage by stage ----

  lemma ShortLiterals(n: nat, s: seq<byte>, out: seq<byte>)
    requires s != [] && s[0] / 16 < 15
    ensures Leads(n, AtToken, s, out, AtLiterals(s[0], s[0] / 16), s[1..], out)
  {
  }

  lemma LongLiterals(n: nat, s: seq<byte>, out: seq<byte>)
    requires s != [] && s[0] / 16 == 15
    ensures var run := ReadRun(s[1..]);
            if run.None? then Rest(AtToken, s, out, Total(n)).None?
            else Leads(n, AtToken, s, out, AtLiterals(s[0], 15 + run.value.0), s[1 + run.value.1..], out)
  {
  }

  /** Literals that do not end the input are followed by a match. */
  lemma LiteralsThenMatch(n: nat, token: byte, len: nat, s: seq<byte>, out: seq<byte>)
    requires len + 2 <= |s|
    ensures Leads(n, AtLiterals(token, len), s, out,
                  AtLength(token % 16, LE(s[len..len + 2])), s[len + 2..], out + s[..len])
  {
    var t := s[len..];
    assert t[..2] == s[len..len + 2] && t[2..] == s[len + 2..];
    var out' := out + s[..len];
    assert Offset(token, t, out', Free) == MatchLength(token % 16, LE(s[len..len + 2]), s[len + 2..], out', Free);
    assert Offset(token, t, out', Total(n))
      == MatchLength(token % 16, LE(s[len..len + 2]), s[len + 2..], out', Total(n));
  }

  lemma LengthThenMatch(n: nat, code: nat, offset: nat, s: seq<byte>, out: seq<byte>)
    ensures code < 15 ==> Leads(n, AtLength(code, offset), s, out, AtMatch(offset, code + MINMATCH), s, out)
    ensures code >= 15 ==>
              var run := ReadRun(s);
              if run.None? then Rest(AtLength(code, offset), s, out, Total(n)).None?
              else Leads(n, AtLength(code, offset), s, out, AtMatch(offset, 15 + run.value.0 + MINMATCH),
                s[run.value.1..], out)
  {
  }

  lemma MatchThenToken(n: nat, offset: nat, len: nat, s: seq<byte>, out: seq<byte>)
    requires offset <= |out|
    ensures Leads(n, AtMatch(offset, len), s, out, AtToken, s, Extend(out, offset, len))
  {
  }

  // ---- the safe loop ----

  /** The start of a sequence: the two-stage shortcut when there is room, else the literal length. */
  method SafeToken(src: seq<byte>, ip: nat, dst: array<byte>, op: nat, ghost n: nat)
    returns (next: Next, ip': nat, op': nat)
    requires Fits(AtToken, ip, |src|, op, dst.Length)
    modifies dst
    ensures ip < ip' <= |src| && op' <= dst.Length && !next.Done?
    ensures next.Go? ==> Fits(next.stage, ip', |src|, op', dst.Length)
    ensures Moves(n, AtToken, src[ip..], old(dst[..op]), next, src[ip'..], dst[..op'])
  {
    var token := src[ip];
    var len: nat := token / 16;
    ghost var s, out := src[ip..], dst[..op];
    ip', op' := ip + 1, op;
    assert s[1..] == src[ip'..];
    if len != 15 && ip' < |src| - 16 && op <= dst.Length - 32 {
      ShortLiterals(n, s, out);
      next, ip', op' := Shortcut(src, ip', token, dst, op, n);
      return;
    }
    if len == 15 {
      LongLiterals(n, s, out);
      var ok, more;
      ok, more, ip' := ReadVariableLength(src, ip + 1, |src| - 15, true);
      if !ok {
        LongLiteralsCutShort(n, s, out);
        return Fail, ip', op;
      }
      len := len + more;
      assert s[1 + (ip' - (ip + 1))..] == src[ip'..];
    } else {
      ShortLiterals(n, s, out);
    }
    next := Go(AtLiterals(token, len));
  }

  /** A literal length that reaches into the last 15 bytes of the input leaves too few literals. */
  lemma LongLiteralsCutShort(n: nat, s: seq<byte>, out: seq<byte>)
    requires s != [] && s[0] / 16 == 15
    requires ReadRun(s[1..]).Some? ==> 1 + ReadRun(s[1..]).value.1 > |s| - 15
    ensures Rest(AtToken, s, out, Total(n)).None?
  {
    var run := ReadRun(s[1..]);
    if run.Some? {
      assert Literals(s[0], 15 + run.value.0, s[1 + run.value.1..], out, Total(n)).None?;
    }
  }

  /** Up to 14 literals as one 16-byte copy, and the offset behind them. */
  method ShortcutLiterals(src: seq<byte>, ip: nat, token: byte, dst: array<byte>, op: nat, ghost n: nat)
    returns (offset: nat, ip': nat, op': nat)
    requires token / 16 < 15 && ip + 16 <= |src| && op + 16 <= dst.Length
    modifies dst
    ensures ip' == ip + token / 16 + 2 && op' == op + token / 16
    ensures Leads(n, AtLiterals(token, token / 16), src[ip..], old(dst[..op]),
                  AtLength(token % 16, offset), src[ip'..], dst[..op'])
  {
    var len := token / 16;
    ghost var s, out := src[ip..], dst[..op];
    PutPrefix(dst, op, src[ip..ip + 16], len);
    ip', op' := ip + len, op + len;
    assert src[ip..ip + 16][..len] == s[..len];
    offset := LE(src[ip'..ip' + 2]);
    assert s[len..len + 2] == src[ip'..ip' + 2];
    LiteralsThenMatch(n, token, len, s, out);
    ip' := ip' + 2;
    assert s[len + 2..] == src[ip'..];
  }

  /** The shortcut of the safe loop: after the literals, a match of at most 18 bytes as one 18-byte copy. */
  method Shortcut(src: seq<byte>, ip: nat, token: byte, dst: array<byte>, op: nat, ghost n: nat)
    returns (next: Next, ip': nat, op': nat)
    requires token / 16 < 15 && ip + 16 < |src| && op + 32 <= dst.Length
    modifies dst
    ensures ip < ip' <= |src| && op' <= dst.Length && next.Go?
    ensures Fits(next.stage, ip', |src|, op', dst.Length)
    ensures Moves(n, AtLiterals(token, token / 16), src[ip..], old(dst[..op]), next, src[ip'..], dst[..op'])
  {
    var offset;
    offset, ip', op' := ShortcutLiterals(src, ip, token, dst, op, n);
    var code := token % 16;
    if code != 15 && offset >= 8 && offset <= op' {
      LengthThenMatch(n, code, offset, src[ip'..], dst[..op']);
      MatchThenToken(n, offset, code + MINMATCH, src[ip'..], dst[..op']);
      CopyEighteen(dst, op', offset, code + MINMATCH);
      op' := op' + code + MINMATCH;
      next := Go(AtToken);
    } else {
      next := Go(AtLength(code, offset));
    }
  }

  /** At `safe_literal_copy`: the last run of literals, or literals followed by an offset. */
  method SafeLiterals(src: seq<byte>, ip: nat, token: byte, len: nat, dst: array<byte>, op: nat, ghost n: nat)
    returns (next: Next, ip': nat, op': nat)
    requires Fits(AtLiterals(token, len), ip, |src|, op, dst.Length) && n <= dst.Length
    modifies dst
    ensures ip <= ip' <= |src| && op' <= dst.Length
    ensures next.Go? ==> ip < ip' && Fits(next.stage, ip', |src|, op', dst.Length)
    ensures Moves(n, AtLiterals(token, len), src[ip..], old(dst[..op]), next, src[ip'..], dst[..op'])
  {
    ghost var s, out := src[ip..], dst[..op];
    var cpy := op + len;
    if cpy > dst.Length - MFLIMIT || ip + len > |src| - (2 + 1 + LASTLITERALS) {
      if ip + len != |src| || cpy > dst.Length {
        NotLastLiterals(n, token, len, s, out, dst.Length);
        return Fail, ip, op;
      }
      PutPrefix(dst, op, src[ip..ip + len], len);
      ip', op' := ip + len, cpy;
      assert s == src[ip..ip + len] && s[..len] == s;
      return Done, ip', op';
    }
    WildCopyIn(dst, op, src, ip, len, 8);
    assert s[..len] == src[ip..ip + len];
    LiteralsThenMatch(n, token, len, s, out);
    ip', op' := ip + len, cpy;
    var offset := LE(src[ip'..ip' + 2]);
    assert s[len..len + 2] == src[ip'..ip' + 2];
    ip' := ip' + 2;
    assert s[len + 2..] == src[ip'..];
    next := Go(AtLength(token % 16, offset));
  }

  /** Literals too close to either end that do not end the input break an end-of-block rule. */
  lemma NotLastLiterals(n: nat, token: byte, len: nat, s: seq<byte>, out: seq<byte>, capacity: nat)
    requires |out| <= capacity && n <= capacity
    requires |out| + len > capacity - MFLIMIT || len > |s| - (2 + 1 + LASTLITERALS)
    requires len != |s| || |out| + len > capacity
    ensures Rest(AtLiterals(token, len), s, out, Total(n)).None?
  {
    if Literals(token, len, s, out, Total(n)).Some? {
      TotalNeedsLiterals(token, len, s, out, n);
    }
  }

  /** At `_copy_match`: the extra bytes of the match length. */
  method SafeLength(src: seq<byte>, ip: nat, code: nat, offset: nat, dst: array<byte>, op: nat, ghost n: nat)
    returns (next: Next, ip': nat)
    requires Fits(AtLength(code, offset), ip, |src|, op, dst.Length)
    ensures ip <= ip' <= |src| && !next.Done?
    ensures next.Go? ==>
            next.stage.AtMatch? && next.stage.offset == offset && Fits(next.stage, ip', |src|, op, dst.Length)
    ensures next.Go? && code < 15 ==> next.stage.len == code + MINMATCH
    ensures Moves(n, AtLength(code, offset), src[ip..], dst[..op], next, src[ip'..], dst[..op])
  {
    ghost var s, out := src[ip..], dst[..op];
    LengthThenMatch(n, code, offset, s, out);
    if code == 15 {
      var ok, more;
      ok, more, ip' := ReadVariableLength(src, ip, |src| - LASTLITERALS + 1, false);
      if !ok {
        LengthCutShort(n, offset, s, out);
        return Fail, ip';
      }
      assert s[ip' - ip..] == src[ip'..];
      next := Go(AtMatch(offset, code + more + MINMATCH));
    } else {
      next, ip' := Go(AtMatch(offset, code + MINMATCH)), ip;
    }
  }

  /** A match length that reaches into the last 4 bytes leaves no room for the last literals. */
  lemma LengthCutShort(n: nat, offset: nat, s: seq<byte>, out: seq<byte>)
    requires ReadRun(s).Some? ==> ReadRun(s).value.1 > |s| - LASTLITERALS + 1
    ensures Rest(AtLength(15, offset), s, out, Total(n)).None?
  {
    if MatchLength(15, offset, s, out, Total(n)).Some? {
      var run := ReadRun(s).value;
      TotalNeedsCopy(offset, 15 + run.0 + MINMATCH, s[run.1..], out, n);
    }
  }

  /** At `safe_match_copy`. */
  method SafeMatch(src: seq<byte>, ip: nat, offset: nat, len: nat, dst: array<byte>, op: nat, ghost n: nat)
    returns (next: Next, op': nat)
    requires Fits(AtMatch(offset, len), ip, |src|, op, dst.Length) && n <= dst.Length
    modifies dst
    ensures op' <= dst.Length && (next == Go(AtToken) || next == Fail)
    ensures Moves(n, AtMatch(offset, len), src[ip..], old(dst[..op]), next, src[ip..], dst[..op'])
  {
    op' := op;
    if offset > op {
      return Fail, op;
    }
    MatchThenToken(n, offset, len, src[ip..], dst[..op]);
    var ok := CopySafe(dst, op, offset, len);
    if !ok {
      return Fail, op;
    }
    return Go(AtToken), op + len;
  }

  /** Ranks the stages of one sequence, for termination. */
  function Rank(at: Stage): (r: nat)
  {
    match at
    case AtToken => 0
    case AtMatch(_, _) => 1
    case AtLength(_, _) => 2
    case AtLiterals(_, _) => 3
  }

  /** One move of the safe loop, whichever label it starts from. */
  method SafeStep(at: Stage, src: seq<byte>, ip: nat, dst: array<byte>, op: nat, ghost n: nat)
    returns (next: Next, ip': nat, op': nat)
    requires Fits(at, ip, |src|, op, dst.Length) && n <= dst.Length
    modifies dst
    ensures ip <= ip' <= |src| && op' <= dst.Length
    ensures next.Go? ==> Fits(next.stage, ip', |src|, op', dst.Length)
    ensures next.Go? ==> ip < ip' || Rank(next.stage) < Rank(at)
    ensures Moves(n, at, src[ip..], old(dst[..op]), next, src[ip'..], dst[..op'])
  {
    ip', op' := ip, op;
    match at
    case AtToken => next, ip', op' := SafeToken(src, ip, dst, op, n);
    case AtLiterals(token, len) => next, ip', op' := SafeLiterals(src, ip, token, len, dst, op, n);
    case AtLength(code, offset) => next, ip' := SafeLength(src, ip, code, offset, dst, op, n);
    case AtMatch(offset, len) => next, op' := SafeMatch(src, ip, offset, len, dst, op, n);
  }

  /** The safe loop from any of its entry points: the output size, or a negative number. */
  method SafeDecode(start: Stage, src: seq<byte>, ip: nat, dst: array<byte>, op: nat, ghost n: nat) returns (r: int)
    requires Fits(start, ip, |src|, op, dst.Length) && n <= dst.Length
    modifies dst
    ensures -(|src| as int) - 1 <= r <= dst.Length
    ensures r >= 0 ==> Rest(start, src[ip..], old(dst[..op]), Free) == Some(dst[..r])
    ensures r < 0 ==> Rest(start, src[ip..], old(dst[..op]), Total(n)).None?
  {
    var at, i: nat, o: nat := start, ip, op;
    while true
      invariant i <= |src| && o <= dst.Length && Fits(at, i, |src|, o, dst.Length)
      invariant Leads(n, start, src[ip..], old(dst[..op]), at, src[i..], dst[..o])
      decreases |src| - i, Rank(at)
    {
      var next;
      next, i, o := SafeStep(at, src, i, dst, o, n);
      match next
      case Done => return o;
      case Fail => return -(i as int) - 1;
      case Go(at') => at := at';
    }
  }

  // ---- the fast loop ----

  const FASTLOOP_SAFE_DISTANCE: nat := 64

  /** The literals of a sequence while there are 64 bytes of room: wild copies, or over to the safe loop. */
  method FastLiterals(src: seq<byte>, ip: nat, dst: array<byte>, op: nat, ghost n: nat)
    returns (next: Next, ip': nat, op': nat)
    requires ip < |src| && op + FASTLOOP_SAFE_DISTANCE <= dst.Length
    modifies dst
    ensures ip < ip' <= |src| && op' <= dst.Length && !next.Done?
    ensures next.Go? ==>
            (next.stage.AtLiterals? || next.stage.AtLength?) && Fits(next.stage, ip', |src|, op', dst.Length)
    ensures next.Go? && next.stage.AtLength? ==> op' + 32 <= dst.Length
    ensures Moves(n, AtToken, src[ip..], old(dst[..op]), next, src[ip'..], dst[..op'])
  {
    var token := src[ip];
    ghost var s, out := src[ip..], dst[..op];
    ip', op' := ip + 1, op;
    assert s[1..] == src[ip'..];
    if token / 16 == 15 {
      LongLiterals(n, s, out);
      var ok, more;
      ok, more, ip' := ReadVariableLength(src, ip + 1, |src| - 15, true);
      if !ok {
        LongLiteralsCutShort(n, s, out);
        return Fail, ip', op;
      }
      assert s[1 + (ip' - (ip + 1))..] == src[ip'..];
      next, ip', op' := FastLongLiterals(src, ip', token, 15 + more, dst, op, n);
    } else {
      ShortLiterals(n, s, out);
      if ip' <= |src| - 17 {
        var offset;
        offset, ip', op' := ShortcutLiterals(src, ip', token, dst, op, n);
        next := Go(AtLength(token % 16, offset));
      } else {
        next := Go(AtLiterals(token, token / 16));
      }
    }
  }

  method FastLongLiterals(src: seq<byte>, ip: nat, token: byte, len: nat, dst: array<byte>, op: nat, ghost n: nat)
    returns (next: Next, ip': nat, op': nat)
    requires ip <= |src| && op + FASTLOOP_SAFE_DISTANCE <= dst.Length
    modifies dst
    ensures ip <= ip' <= |src| && op' <= dst.Length
    ensures next.Go? && (next.stage.AtLiterals? || next.stage.AtLength?)
            && Fits(next.stage, ip', |src|, op', dst.Length)
    ensures next.stage.AtLength? ==> op' + 32 <= dst.Length
    ensures Moves(n, AtLiterals(token, len), src[ip..], old(dst[..op]), next, src[ip'..], dst[..op'])
  {
    ghost var s, out := src[ip..], dst[..op];
    if op + len > dst.Length - 32 || ip + len > |src| - 32 {
      return Go(AtLiterals(token, len)), ip, op;
    }
    WildCopyIn(dst, op, src, ip, len, 32);
    assert s[..len] == src[ip..ip + len];
    LiteralsThenMatch(n, token, len, s, out);
    ip', op' := ip + len, op + len;
    var offset := LE(src[ip'..ip' + 2]);
    assert s[len..len + 2] == src[ip'..ip' + 2];
    ip' := ip' + 2;
    assert s[len + 2..] == src[ip'..];
    next := Go(AtLength(token % 16, offset));
  }

  /** The match of a sequence in the fast loop: back to a token, or over to the safe loop. */
  method FastMatch(src: seq<byte>, ip: nat, code: nat, offset: nat, dst: array<byte>, op: nat, ghost n: nat)
    returns (next: Next, ip': nat, op': nat)
    requires Fits(AtLength(code, offset), ip, |src|, op, dst.Length) && op + 32 <= dst.Length
    modifies dst
    ensures ip <= ip' <= |src| && op' <= dst.Length && !next.Done?
    ensures next.Go? ==> (next.stage.AtToken? || next.stage.AtMatch?) && Fits(next.stage, ip', |src|, op', dst.Length)
    ensures next.Go? && next.stage.AtToken? ==> op' + FASTLOOP_SAFE_DISTANCE <= dst.Length
    ensures Moves(n, AtLength(code, offset), src[ip..], old(dst[..op]), next, src[ip'..], dst[..op'])
  {
    op' := op;
    next, ip' := SafeLength(src, ip, code, offset, dst, op, n);
    if next.Fail? {
      return;
    }
    var len := next.stage.len;
    if op + len >= dst.Length - FASTLOOP_SAFE_DISTANCE {
      return;
    }
    if offset > op {
      return Fail, ip', op;
    }
    MatchThenToken(n, offset, len, src[ip'..], dst[..op]);
    FastCopy(dst, op, code, offset, len);
    return Go(AtToken), ip', op + len;
  }

  /** The three copies of the fast loop, far from the end of the buffer. */
  method FastCopy(dst: array<byte>, op: nat, code: nat, offset: nat, len: nat)
    requires offset <= op && MINMATCH <= len && op + len + 64 <= dst.Length && (code < 15 ==> len == code + MINMATCH)
    modifies dst
    ensures dst[..op + len] == Extend(old(dst[..op]), offset, len)
  {
    if code < 15 && offset >= 8 {
      CopyEighteen(dst, op, offset, len);
    } else if offset < 16 {
      CopyUsingOffset(dst, op, offset, op + len);
    } else {
      CopyFar(dst, op, offset, op + len);
    }
  }

  /** The fast loop: runs until it fails or hands over to the safe loop inside a sequence. */
  method FastDecode(src: seq<byte>, dst: array<byte>, ghost n: nat) returns (next: Next, ip: nat, op: nat)
    requires |src| > 0 && dst.Length >= FASTLOOP_SAFE_DISTANCE && n <= dst.Length
    modifies dst
    ensures ip <= |src| && op <= dst.Length && !next.Done?
    ensures next.Go? ==> Fits(next.stage, ip, |src|, op, dst.Length)
    ensures Moves(n, AtToken, src, [], next, src[ip..], dst[..op])
  {
    ip, op := 0, 0;
    assert src[0..] == src && dst[..0] == [];
    while true
      invariant ip < |src| && op + FASTLOOP_SAFE_DISTANCE <= dst.Length
      invariant Leads(n, AtToken, src, [], AtToken, src[ip..], dst[..op])
      decreases |src| - ip
    {
      next, ip, op := FastLiterals(src, ip, dst, op, n);
      if next.Fail? || next.stage.AtLiterals? {
        return;
      }
      next, ip, op := FastMatch(src, ip, next.stage.code, next.stage.offset, dst, op, n);
      if next.Fail? || next.stage.AtMatch? {
        return;
      }
    }
  }

  /**
   * `LZ4_decompress_safe`. On every input, what the decoder accepts is what the reference decoder
   * gives. It accepts every block that the library's simple decoder accepts, in any buffer that is large
   * enough, and with the same bytes unless some match has offset 0. An empty buffer takes the block
   * `[0]` and nothing else.
   */
  method DecompressSafe(src: seq<byte>, dst: array<byte>) returns (r: int)
    modifies dst
    ensures -(|src| as int) - 1 <= r <= dst.Length
    ensures r >= 0 ==> Decode(src, [], Free) == Some(dst[..r])
    ensures r < 0 && (src == [] || dst.Length == 0) ==> r == -1
    ensures forall n: nat ::
              n <= dst.Length && (dst.Length > 0 || src == [0]) && Decode(src, [], Total(n)).Some?
              ==> r == n && Decode(src, [], Total(n)) == Some(dst[..n])
    ensures forall n: nat, memory: nat -> byte ::
              n <= dst.Length && (dst.Length > 0 || src == [0]) && Decode(src, [], Plain(n, memory)).Some?
              ==> r == n && (!ZeroOffset(src) ==> Decode(src, [], Plain(n, memory)) == Some(dst[..n]))
    ensures dst.Length == 0 ==> (r >= 0 <==> src == [0])
    ensures var free := Decode(src, [], Free);
            free.Some? && 0 < |free.value| <= dst.Length && Early(Spans(src, 0), |free.value|) ==>
              r == |free.value| && dst[..r] == free.value
  {
    assert src[0..] == src && dst[..0] == [];
    ghost var free := Decode(src, [], Free);
    ghost var size := if free.Some? && |free.value| <= dst.Length then |free.value| else 0;
    if dst.Length == 0 {
      r := if src == [0] then 0 else -1;
    } else if |src| == 0 {
      return -1;
    } else if dst.Length < FASTLOOP_SAFE_DISTANCE {
      r := SafeDecode(AtToken, src, 0, dst, 0, size);
    } else {
      var next, ip, op := FastDecode(src, dst, size);
      if next.Fail? {
        r := -(ip as int) - 1;
      } else {
        r := SafeDecode(next.stage, src, ip, dst, op, size);
      }
    }
    forall n: nat | n <= dst.Length && Decode(src, [], Total(n)).Some?
      ensures n == size && free == Decode(src, [], Total(n))
    {
      TotalIsFree(src, [], n);
    }
    forall n: nat, memory: nat -> byte
      ensures Decode(src, [], Plain(n, memory)).Some? <==> Decode(src, [], Total(n)).Some?
      ensures !ZeroOffset(src) ==> Decode(src, [], Plain(n, memory)) == Decode(src, [], Total(n))
    {
      AgreesUnlessZeroOffset(src, n, memory);
    }
    EndRules(src, size);
  }

  /** The block at the limits of the end rules, into a buffer of exactly its size. */
  method DecompressLimitBlock(dst: array<byte>) returns (r: int)
    requires dst.Length == 13
    modifies dst
    ensures r == 13 && dst[..] == [97, 97, 97, 97, 97, 97, 97, 97, 98, 99, 100, 101, 102]
  {
    LimitBlockDecodes();
    r := DecompressSafe([19, 97, 1, 0, 80, 98, 99, 100, 101, 102], dst);
    assert dst[..13] == dst[..];
  }
}
