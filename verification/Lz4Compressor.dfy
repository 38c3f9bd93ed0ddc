/** `LZ4_compress_default`: match finding, the main loop, and the compressor and decoder together. */
module Lz4Compressor {
  import opened Bytes
  import opened Match
  import opened Options
  import opened MatchFinder
  import opened Lz4Format
  import opened Lz4Rules
  import opened Lz4Encoder
  import opened Lz4Decoder

  const DISTANCE_MAX: nat := 65535
  const MAX_INPUT_SIZE: nat := 0x7E00_0000

  /** How the hash table is kept: 16-bit positions hashed from 4 bytes, or 32-bit ones from 8. */
  datatype TableType = ByU16 | ByU32

  /** The table entry of position `p`. `hash` stands for any function of the bytes read there. */
  function HashPosition(kind: TableType, hash: nat -> nat, s: seq<byte>, p: nat): (h: nat)
    requires p + 8 <= |s|
  {
    if kind == ByU16 then hash(Load32(s, p)) else hash(Load64(s, p))
  }

  function EntryWidth(kind: TableType): (w: nat)
  {
    if kind == ByU16 then 0x1_0000 else 0x1_0000_0000
  }

  /** The input sizes each table is used for. */
  predicate Suits(kind: TableType, size: nat)
  {
    if kind == ByU16 then size < 0x1_0000 + (MFLIMIT - 1) else size <= MAX_INPUT_SIZE
  }

  // ---- counting ----

  /** `LZ4_count`: the longest run from `p`, up to `limit`, that repeats what stands `offset` before it. */
  method Count(s: seq<byte>, p: nat, offset: nat, limit: nat) returns (n: nat)
    requires 0 < offset <= p <= limit <= |s|
    ensures p + n <= limit && Repeats(s, offset, p, p + n)
    ensures p + n == limit || s[p + n] != s[p + n - offset]
  {
    var q := p;
    while q + 8 <= limit
      invariant p <= q <= limit && Repeats(s, offset, p, q)
    {
      var a, b := Load64(s, q), Load64(s, q - offset);
      if a != b {
        FirstDifference(s, q, offset);
        return q - p + CtzXor(a, b) / 8;
      }
      LEInjective(s[q..q + 8], s[q - offset..q - offset + 8]);
      SameSlice(s, q - offset, q, 8);
      q := q + 8;
    }
    n := CountTail(s, q, offset, limit);
    n := q - p + n;
  }

  /** The last 7 bytes: a 4-byte, a 2-byte and a 1-byte comparison. */
  method CountTail(s: seq<byte>, p: nat, offset: nat, limit: nat) returns (n: nat)
    requires 0 < offset <= p <= limit <= |s| && limit < p + 8
    ensures p + n <= limit && Repeats(s, offset, p, p + n)
    ensures p + n == limit || s[p + n] != s[p + n - offset]
  {
    var q := TryWord(s, p, offset, limit, 4);
    var more := CountThree(s, q, offset, limit);
    n := q + more - p;
  }

  /** At most 3 bytes more are equal: a 2-byte and a 1-byte comparison. */
  method CountThree(s: seq<byte>, p: nat, offset: nat, limit: nat) returns (n: nat)
    requires 0 < offset <= p <= limit <= |s| && (p + 4 <= limit ==> !Repeats(s, offset, p, p + 4))
    ensures p + n <= limit && Repeats(s, offset, p, p + n)
    ensures p + n == limit || s[p + n] != s[p + n - offset]
  {
    var q := TryWord(s, p, offset, limit, 2);
    n := q - p;
    if q + 2 <= limit {
      assert !Repeats(s, offset, q, q + 2);
    }
    if q < limit && s[q] == s[q - offset] {
      n := n + 1;
    }
  }

  /** Compares one word of `w` bytes if there is room for it, and steps over it if it is equal. */
  method TryWord(s: seq<byte>, q: nat, offset: nat, limit: nat, w: nat) returns (q': nat)
    requires 0 < offset <= q <= limit <= |s|
    ensures q' == q || (q' == q + w <= limit && Repeats(s, offset, q, q'))
    ensures q' == q && q + w <= limit && w > 0 ==> !Repeats(s, offset, q, q + w)
  {
    q' := q;
    if q + w <= limit {
      WordsEqual(s, q, offset, w);
      if LE(s[q..q + w]) == LE(s[q - offset..q - offset + w]) {
        q' := q + w;
      }
    }
  }

  /** Words are equal exactly when every byte is. */
  lemma WordsEqual(s: seq<byte>, q: nat, offset: nat, w: nat)
    requires 0 < offset <= q && q + w <= |s|
    ensures LE(s[q..q + w]) == LE(s[q - offset..q - offset + w]) <==> Repeats(s, offset, q, q + w)
  {
    var x, y := s[q..q + w], s[q - offset..q - offset + w];
    if LE(x) == LE(y) {
      LEInjective(x, y);
      SameSlice(s, q - offset, q, w);
    }
    if Repeats(s, offset, q, q + w) {
      assert x == y;
    }
  }

  // ---- searching ----

  /** A match close enough for a 16-bit offset. */
  ghost predicate GoodMatch(s: seq<byte>, match': nat, ip: nat)
  {
    Matches(s, match', ip) && ip - match' <= DISTANCE_MAX
  }

  /** An earlier position is taken: it is at most 65535 back and has the same four bytes. */
  ghost predicate Takes(s: seq<byte>, m: nat, ip: nat)
    requires m < ip && ip + 4 <= |s|
  {
    ip - m <= 65535 && Load32(s, m) == Load32(s, ip)
  }

  /** The skip-ahead search for a match, from `start` on; the last match may start 12 bytes before the end. */
  method FindMatch(kind: TableType, s: seq<byte>, table: array<nat>, hash: nat -> nat, acceleration: nat, start: nat)
    returns (found: bool, ip: nat, match': nat)
    requires Suits(kind, |s|) && 1 <= start && start + MFLIMIT - 1 <= |s| && acceleration >= 1
    requires forall v :: hash(v) < table.Length
    requires Below(table, start)
    modifies table
    ensures found ==> start <= ip && ip + MFLIMIT <= |s| && GoodMatch(s, match', ip) && Below(table, ip + 1)
    ensures var first := old(table[HashPosition(kind, hash, s, start)]);
            start + 12 <= |s| && Takes(s, first, start) ==> found && ip == start && match' == first
  {
    var forwardIp, step, attempts := start, 1, acceleration * 64;
    ip, match' := start, 0;
    while true
      invariant start <= forwardIp && forwardIp + MFLIMIT - 1 <= |s| && step >= 1 && attempts >= 64
      invariant Below(table, forwardIp)
      invariant forwardIp == start ==> step == 1 && unchanged(table)
      invariant forwardIp > start ==>
                  start + 12 <= |s| && !Takes(s, old(table[HashPosition(kind, hash, s, start)]), start)
      decreases |s| - forwardIp
    {
      var h := HashPosition(kind, hash, s, forwardIp);
      ip := forwardIp;
      forwardIp := forwardIp + step;
      step, attempts := attempts / 64, attempts + 1;
      if forwardIp > |s| - MFLIMIT + 1 {
        return false, ip, 0;
      }
      match' := Exchange(table, h, ip, EntryWidth(kind));
      if kind == ByU16 || match' + DISTANCE_MAX >= ip {
        if Load32(s, match') == Load32(s, ip) {
          LoadsMatch(s, match', ip);
          return true, ip, match';
        }
      }
    }
  }

  /** Extends a match backwards over the pending literals. */
  method CatchUp(s: seq<byte>, anchor: nat, ip: nat, match': nat) returns (back: nat)
    requires anchor < ip && GoodMatch(s, match', ip)
    ensures anchor + back <= ip && back <= match' && GoodMatch(s, match' - back, ip - back)
    ensures Repeats(s, ip - match', ip - back, ip + MINMATCH)
    ensures anchor + back == ip || back == match' || s[ip - back - 1] != s[match' - back - 1]
  {
    var offset := ip - match';
    back := 0;
    while ip - back > anchor && match' - back > 0 && s[ip - back - 1] == s[match' - back - 1]
      invariant anchor + back <= ip && back <= match'
      invariant Repeats(s, offset, ip - back, ip + 4)
    {
      back := back + 1;
    }
  }

  // ---- emitting ----

  /** The output stays this close to the input it has covered; an unlimited one may rely on the bound. */
  predicate Keeps(limited: bool, op: nat, anchor: nat, size: nat, capacity: nat)
  {
    255 * op <= 256 * anchor && (limited || CompressBound(size) <= capacity)
  }

  /** Literals before a match, if a limited output has room for them. */
  method AppendLiterals(limited: bool, dst: array<byte>, op: nat, src: seq<byte>, anchor: nat, ip: nat)
    returns (ok: bool, op': nat)
    requires anchor <= ip && ip + MFLIMIT <= |src| && Keeps(limited, op, anchor, |src|, dst.Length)
    modifies dst
    ensures ok ==> op < op' && op' + 7 <= dst.Length && dst[op..op'] == WriteLiterals(src[anchor..ip], 0)
    ensures ok ==> op' == op + 1 + |LengthTail(ip - anchor)| + (ip - anchor)
    ensures ok <==> !(limited && op + (ip - anchor) + (ip - anchor) / 255 + 9 > dst.Length)
    ensures forall k :: 0 <= k < op && k < dst.Length ==> dst[k] == old(dst[k])
  {
    var len := ip - anchor;
    LiteralsCost(src[anchor..ip], 0);
    if limited && op + 1 + len + (2 + 1 + LASTLITERALS) + len / 255 > dst.Length {
      return false, op;
    }
    assert LiteralsFit(op, len, dst.Length);
    op' := PutLiterals(dst, op, src, anchor, ip);
    ok := true;
  }

  /**
   * At `_next_match`: the offset, the measured length, and the end of the sequence that began with
   * the token. Fails only when a limited output runs out.
   */
  method AppendMatch(limited: bool, dst: array<byte>, token: nat, op: nat, src: seq<byte>, anchor: nat, ip: nat,
                     match': nat, ghost reach: nat)
    returns (ok: bool, ip': nat, op': nat)
    requires anchor <= ip <= reach && reach + MFLIMIT <= |src| && GoodMatch(src, match', ip)
    requires Repeats(src, ip - match', ip, reach + MINMATCH)
    requires token < op && op + 2 <= dst.Length && dst[token..op] == WriteLiterals(src[anchor..ip], 0)
    requires Keeps(limited, token, anchor, |src|, dst.Length)
    requires Begins(dst[..token], src[..anchor], |src|)
    modifies dst
    ensures reach + MINMATCH <= ip' && ip' + LASTLITERALS <= |src|
    ensures ip' + 5 == |src| || src[ip'] != src[ip' - (ip - match')]
    ensures ok ==> token < op' && op' + 6 <= dst.Length
    ensures ok ==> Keeps(limited, op', ip', |src|, dst.Length)
    ensures ok ==> Begins(dst[..op'], src[..ip'], |src|)
    ensures ok ==> op' == op + 2 + |LengthTail(ip' - ip - MINMATCH)|
    ensures ok <==> !(limited && op + 8 + (ip' - ip + 236) / 255 > dst.Length)
  {
    ghost var w := dst[..token];
    PutOffset(dst, token, op, ip - match', src[anchor..ip]);
    assert dst[..token] == w;
    ip' := MeasureMatch(src, ip, match', reach);
    ok, op' := EndSequence(limited, dst, token, op + 2, src, anchor, ip, ip', ip - match');
  }

  /** Where a match ends: as far as the bytes repeat, leaving the last 5 for literals. */
  method MeasureMatch(src: seq<byte>, ip: nat, match': nat, ghost reach: nat) returns (ip': nat)
    requires ip <= reach && reach + MFLIMIT <= |src| && GoodMatch(src, match', ip)
    requires Repeats(src, ip - match', ip, reach + MINMATCH)
    ensures reach + MINMATCH <= ip' && ip' + LASTLITERALS <= |src|
    ensures Repeats(src, ip - match', ip, ip')
    ensures ip' + 5 == |src| || src[ip'] != src[ip' - (ip - match')]
  {
    var code := Count(src, ip + MINMATCH, ip - match', |src| - LASTLITERALS);
    ip' := ip + MINMATCH + code;
  }

  /** The match length, if a limited output has room for it. */
  method EndSequence(limited: bool, dst: array<byte>, token: nat, op: nat, src: seq<byte>, anchor: nat, ip: nat,
                     ip': nat, ghost offset: nat)
    returns (ok: bool, op': nat)
    requires anchor <= ip && ip + MFLIMIT <= |src| && ip + MINMATCH <= ip' && ip' + LASTLITERALS <= |src|
    requires 0 < offset <= ip && offset <= DISTANCE_MAX && Repeats(src, offset, ip, ip')
    requires token < op <= dst.Length && dst[token..op] == WriteLiterals(src[anchor..ip], 0) + ToLE(offset, 2)
    requires Keeps(limited, token, anchor, |src|, dst.Length)
    requires Begins(dst[..token], src[..anchor], |src|)
    modifies dst
    ensures ok ==> token < op' && op' + 6 <= dst.Length
    ensures ok ==> Keeps(limited, op', ip', |src|, dst.Length)
    ensures ok ==> Begins(dst[..op'], src[..ip'], |src|)
    ensures ok ==> op' == op + |LengthTail(ip' - ip - MINMATCH)|
    ensures ok <==> !(limited && op + 6 + (ip' - ip + 236) / 255 > dst.Length)
  {
    ghost var w, lits := dst[..token], src[anchor..ip];
    assert op == token + |WriteLiterals(lits, 0)| + 2;
    var code := ip' - ip - MINMATCH;
    if limited && op + (1 + LASTLITERALS) + (code + 240) / 255 > dst.Length {
      return false, op;
    }
    SequenceFits(limited, token, op, anchor, lits, offset, code, |src|, dst.Length);
    op' := PutMatchLength(dst, token, op, code, lits, offset);
    assert dst[..op'] == w + dst[token..op'];
    SequenceCovers(w, src, anchor, ip, ip', offset);
    ok := true;
  }

  lemma SequenceFits(limited: bool, token: nat, op: nat, anchor: nat, lits: seq<byte>, offset: nat, code: nat,
                     size: nat, capacity: nat)
    requires Keeps(limited, token, anchor, size, capacity)
    requires op == token + |WriteLiterals(lits, 0)| + 2
    requires anchor + |lits| + MINMATCH + code + LASTLITERALS <= size
    requires limited ==> op + 6 + (code + 240) / 255 <= capacity
    ensures op + |LengthTail(code)| + 6 <= capacity
    ensures Keeps(limited, op + |LengthTail(code)|, anchor + |lits| + MINMATCH + code, size, capacity)
  {
    SequenceCost(lits, offset, code + MINMATCH);
    assert |WriteSequence(lits, offset, code)| == |WriteLiterals(lits, 0)| + 2 + |LengthTail(code)|;
  }

  /** A match found in the input decodes to the input. */
  lemma SequenceCovers(w: seq<byte>, src: seq<byte>, anchor: nat, ip: nat, ip': nat, offset: nat)
    requires anchor <= ip && ip + MFLIMIT <= |src| && ip + MINMATCH <= ip' && ip' + LASTLITERALS <= |src|
    requires 0 < offset <= ip && offset <= DISTANCE_MAX && Repeats(src, offset, ip, ip')
    requires Begins(w, src[..anchor], |src|)
    ensures Begins(w + WriteSequence(src[anchor..ip], offset, ip' - ip - MINMATCH), src[..ip'], |src|)
  {
    BeginsNext(w, src[..anchor], |src|, src[anchor..ip], offset, ip' - ip);
    PrefixThenSlice(src, anchor, ip);
    MatchCovers(src, ip, ip', offset);
  }

  lemma MatchCovers(src: seq<byte>, ip: nat, ip': nat, offset: nat)
    requires 0 < offset <= ip <= ip' <= |src| && Repeats(src, offset, ip, ip')
    ensures Extend(src[..ip], offset, ip' - ip) == src[..ip']
  {
    SliceOfSlice(src, ip', ip);
    RepeatsIsCopyMatch(src[..ip'], src[..ip], offset);
  }

  /** The token of a sequence without literals. */
  method PutEmptyToken(dst: array<byte>, t: nat) returns (op: nat)
    requires t < dst.Length
    modifies dst
    ensures op == t + 1 && dst[t..op] == WriteLiterals([], 0) && dst[..t] == old(dst[..t])
  {
    dst[t] := 0;
    op := t + 1;
    assert WriteLiterals([], 0) == [0];
  }

  /**
   * Matches that follow each other without literals: after each one the table gets the position
   * two back, and the position right behind it is tried at once.
   */
  method AppendMatches(limited: bool, kind: TableType, table: array<nat>, hash: nat -> nat, dst: array<byte>,
                       token: nat, op: nat, src: seq<byte>, anchor: nat, ip: nat, match': nat, ghost reach: nat)
    returns (ok: bool, done: bool, ip': nat, op': nat)
    requires Suits(kind, |src|) && anchor <= ip <= reach && reach + MFLIMIT <= |src| && GoodMatch(src, match', ip)
    requires Repeats(src, ip - match', ip, reach + MINMATCH)
    requires forall v :: hash(v) < table.Length
    requires Below(table, reach + 1)
    requires token < op && op + 2 <= dst.Length && dst[token..op] == WriteLiterals(src[anchor..ip], 0)
    requires Keeps(limited, token, anchor, |src|, dst.Length)
    requires Begins(dst[..token], src[..anchor], |src|)
    modifies table, dst
    ensures ok ==> ip < ip' <= |src| && op' <= dst.Length && Keeps(limited, op', ip', |src|, dst.Length)
    ensures ok ==> Begins(dst[..op'], src[..ip'], |src|)
    ensures ok && !done ==> ip' + MFLIMIT <= |src| && Below(table, ip' + 1)
    ensures !ok ==> limited
    ensures ok && Uniform(src) ==> done && ip' + 5 == |src| && op' == op + 2 + |LengthTail(|src| - 9 - ip)|
  {
    var a: nat, m: nat, t: nat := anchor, match', token;
    ghost var seen := reach;
    ip', op' := ip, op;
    while true
      invariant a <= ip' <= seen && ip <= ip' && seen + MFLIMIT <= |src| && GoodMatch(src, m, ip')
      invariant Repeats(src, ip' - m, ip', seen + MINMATCH)
      invariant Below(table, seen + 1)
      invariant t < op' && op' + 2 <= dst.Length && dst[t..op'] == WriteLiterals(src[a..ip'], 0)
      invariant Keeps(limited, t, a, |src|, dst.Length)
      invariant Begins(dst[..t], src[..a], |src|)
      invariant Uniform(src) ==> ip' == ip && op' == op
      decreases |src| - ip'
    {
      ok, ip', op' := AppendMatch(limited, dst, t, op', src, a, ip', m, seen);
      done := ip' + MFLIMIT > |src|;
      if !ok || done {
        return;
      }
      var _ := Exchange(table, HashPosition(kind, hash, src, ip' - 2), ip' - 2, EntryWidth(kind));
      m := Exchange(table, HashPosition(kind, hash, src, ip'), ip', EntryWidth(kind));
      if (kind == ByU16 || m + DISTANCE_MAX >= ip') && Load32(src, m) == Load32(src, ip') {
        LoadsMatch(src, m, ip');
        a, t, seen := ip', op', ip';
        op' := PutEmptyToken(dst, t);
        assert src[a..ip'] == [];
      } else {
        return;
      }
    }
  }

  // ---- the block ----

  /** The main loop: stands at `anchor` when only literals are left. Fails only for want of room. */
  method CompressLoop(limited: bool, kind: TableType, hash: nat -> nat, acceleration: nat, src: seq<byte>,
                      table: array<nat>, dst: array<byte>)
    returns (ok: bool, anchor: nat, op: nat)
    requires Suits(kind, |src|) && |src| >= MFLIMIT + 1 && acceleration >= 1
    requires forall v :: hash(v) < table.Length
    requires Below(table, 1)
    requires Keeps(limited, 0, 0, |src|, dst.Length)
    modifies table, dst
    ensures ok ==> anchor <= |src| && op <= dst.Length && Keeps(limited, op, anchor, |src|, dst.Length)
    ensures ok ==> Begins(dst[..op], src[..anchor], |src|)
    ensures !ok ==> limited
    ensures ok && Uniform(src) ==> anchor + 5 == |src| && op == 4 + |LengthTail(|src| - 10)|
  {
    anchor, op, ok := 0, 0, true;
    if Uniform(src) {
      UniformLoads(src, 0, 1);
    }
    assert dst[..0] == [] && src[..0] == [];
    BeginsEmpty(|src|);
    while true
      invariant anchor + MFLIMIT <= |src| && op <= dst.Length && ok
      invariant Below(table, anchor + 1)
      invariant Keeps(limited, op, anchor, |src|, dst.Length)
      invariant Begins(dst[..op], src[..anchor], |src|)
      invariant Uniform(src) ==> anchor == 0 && op == 0 && unchanged(table)
      decreases |src| - anchor
    {
      var found, ip, match' := FindMatch(kind, src, table, hash, acceleration, anchor + 1);
      if !found {
        return;
      }
      var done;
      ok, done, anchor, op := AppendFound(limited, kind, hash, src, table, dst, anchor, op, ip, match');
      if !ok || done {
        return;
      }
    }
  }

  /** A match that was found: caught up, its literals, itself, and the matches right behind it. */
  method AppendFound(limited: bool, kind: TableType, hash: nat -> nat, src: seq<byte>, table: array<nat>,
                     dst: array<byte>, anchor: nat, op: nat, ip: nat, match': nat)
    returns (ok: bool, done: bool, anchor': nat, op': nat)
    requires Suits(kind, |src|) && anchor < ip && ip + MFLIMIT <= |src| && GoodMatch(src, match', ip)
    requires forall v :: hash(v) < table.Length
    requires Below(table, ip + 1)
    requires op <= dst.Length && Keeps(limited, op, anchor, |src|, dst.Length)
    requires Begins(dst[..op], src[..anchor], |src|)
    modifies table, dst
    ensures ok ==> anchor < anchor' <= |src| && op' <= dst.Length && Keeps(limited, op', anchor', |src|, dst.Length)
    ensures ok ==> Begins(dst[..op'], src[..anchor'], |src|)
    ensures ok && !done ==> anchor' + MFLIMIT <= |src| && Below(table, anchor' + 1)
    ensures !ok ==> limited
    ensures ok && Uniform(src) && ip == 1 && match' == 0 ==>
              done && anchor' + 5 == |src| && op' == op + 4 + |LengthTail(|src| - 10)|
  {
    var back := CatchUp(src, anchor, ip, match');
    ghost var w := dst[..op];
    ok, op' := AppendLiterals(limited, dst, op, src, anchor, ip - back);
    if !ok {
      return false, true, anchor, op;
    }
    assert dst[..op] == w;
    ok, done, anchor', op' := AppendMatches(limited, kind, table, hash, dst, op, op', src, anchor, ip - back,
                                            match' - back, ip);
  }

  /** At `_last_literals`. */
  method AppendLast(limited: bool, dst: array<byte>, op: nat, src: seq<byte>, anchor: nat) returns (r: nat)
    requires anchor <= |src| && op <= dst.Length && Keeps(limited, op, anchor, |src|, dst.Length)
    requires Begins(dst[..op], src[..anchor], |src|)
    modifies dst
    ensures r <= dst.Length && r <= CompressBound(|src|)
    ensures var last := |src| - anchor;
            var end := op + 1 + (last + 240) / 255 + last;
            r == if limited && end > dst.Length then 0 else end
    ensures r > 0 ==> Decode(dst[..r], [], Total(|src|)) == Some(src)
  {
    var lastRun := |src| - anchor;
    ghost var w := dst[..op];
    LiteralsCost(src[anchor..], 0);
    if limited && op + lastRun + 1 + (lastRun + 255 - 15) / 255 > dst.Length {
      return 0;
    }
    r := PutLast(dst, op, src[anchor..]);
    assert dst[..r] == w + dst[op..r];
    BeginsLast(w, src, anchor);
  }

  method PutBehind(dst: array<byte>, op: nat, q: nat, lits: seq<byte>, ghost head: seq<byte>) returns (r: nat)
    requires op <= q && q + |lits| <= dst.Length && dst[op..q] == head
    modifies dst
    ensures r == q + |lits| && dst[op..r] == head + lits
    ensures forall k :: 0 <= k < q ==> dst[k] == old(dst[k])
  {
    Put(dst, q, lits);
    r := q + |lits|;
  }

  method PutLast(dst: array<byte>, op: nat, lits: seq<byte>) returns (r: nat)
    requires op + 1 + |LengthTail(|lits|)| + |lits| <= dst.Length
    modifies dst
    ensures r == op + 1 + |LengthTail(|lits|)| + |lits| && dst[op..r] == WriteLiterals(lits, 0)
    ensures forall k :: 0 <= k < op ==> dst[k] == old(dst[k])
  {
    var q := PutLiteralsHead(dst, op, |lits|);
    r := PutBehind(dst, op, q, lits, dst[op..q]);
  }

  /** `LZ4_compress_generic_validated`, with a fresh table: the size of the block, or 0. */
  method CompressGeneric(limited: bool, kind: TableType, hash: nat -> nat, acceleration: nat, src: seq<byte>,
                         tableSize: nat, dst: array<byte>)
    returns (r: nat)
    requires Suits(kind, |src|) && |src| > 0 && acceleration >= 1
    requires forall v :: hash(v) < tableSize
    requires limited || CompressBound(|src|) <= dst.Length
    modifies dst
    ensures r <= dst.Length && r <= CompressBound(|src|)
    ensures r == 0 ==> limited
    ensures r > 0 ==> Decode(dst[..r], [], Total(|src|)) == Some(src)
    ensures |src| <= 12 ==> r == if limited && |src| + 1 > dst.Length then 0 else |src| + 1
    ensures |src| >= 13 && Uniform(src) && r > 0 ==> r == 10 + |LengthTail(|src| - 10)|
  {
    var anchor, op, ok := 0, 0, true;
    assert dst[..0] == [] && src[..0] == [];
    BeginsEmpty(|src|);
    if |src| >= MFLIMIT + 1 {
      var table := new nat[tableSize](_ => 0);
      table[HashPosition(kind, hash, src, 0)] := 0;
      ok, anchor, op := CompressLoop(limited, kind, hash, acceleration, src, table, dst);
      if !ok {
        return 0;
      }
    }
    r := AppendLast(limited, dst, op, src, anchor);
  }

  /** `LZ4_compressBound`, which is 0 for inputs the library refuses. */
  function LibraryBound(n: nat): (b: nat)
  {
    if n > MAX_INPUT_SIZE then 0 else CompressBound(n)
  }

  /**
   * `LZ4_compress_default`, for every pair of hash functions. A positive result is the size of a
   * block that obeys the end-of-block rules and decodes to the input; with a buffer of the bound,
   * compression fails only for inputs the library refuses.
   */
  method CompressDefault(hash16: nat -> nat, hash32: nat -> nat, src: seq<byte>, dst: array<byte>) returns (r: nat)
    requires forall v :: hash16(v) < 0x2000
    requires forall v :: hash32(v) < 0x1000
    modifies dst
    ensures r <= dst.Length && r <= |src| + |src| / 255 + 16
    ensures r > 0 ==> Decode(dst[..r], [], Total(|src|)) == Some(src)
    ensures r > 0 ==> Decode(dst[..r], [], Free) == Some(src) && Early(Spans(dst[..r], 0), |src|)
    ensures |src| <= 0x7E00_0000 && dst.Length >= |src| + |src| / 255 + 16 ==> r > 0
    ensures |src| > 0x7E00_0000 ==> r == 0
    ensures |src| <= 12 ==> r == if |src| + 1 > dst.Length then 0 else |src| + 1
    ensures |src| >= 13 && Uniform(src) && r > 0 ==> r == 10 + (if |src| < 25 then 0 else (|src| - 25) / 255 + 1)
    ensures |src| == 0 && r > 0 ==> dst[..r] == [0]
  {
    var limited := dst.Length < LibraryBound(|src|);
    if |src| > MAX_INPUT_SIZE {
      return 0;
    }
    if |src| == 0 {
      if limited && dst.Length == 0 {
        return 0;
      }
      dst[0] := 0;
      LastDecodes([], []);
      assert dst[..1] == WriteLiterals([], 0) && [] + src == src;
      EndRules(dst[..1], 0);
      return 1;
    }
    if Suits(ByU16, |src|) {
      r := CompressGeneric(limited, ByU16, hash16, 1, src, 0x2000, dst);
    } else {
      r := CompressGeneric(limited, ByU32, hash32, 1, src, 0x1000, dst);
    }
    EndRules(dst[..r], |src|);
  }

  /** `LZ4_hash4` and `LZ4_hash5` on a little-endian 64-bit machine are two such hash functions. */
  function Hash4(v: nat): (h: nat)
    ensures h < 0x2000
  {
    v * 2654435761 % 0x1_0000_0000 / 0x8_0000
  }

  function Hash5(v: nat): (h: nat)
    ensures h < 0x1000
  {
    v * 0x100_0000 % 0x1_0000_0000_0000_0000 * 889523592379 % 0x1_0000_0000_0000_0000 / 0x10_0000_0000_0000
  }

  /** Compressing into any buffer that suffices, then decompressing into any that suffices. */
  method RoundTrip(src: seq<byte>, packed: array<byte>, dst: array<byte>) returns (size: nat, r: int)
    requires packed != dst && dst.Length >= |src|
    modifies packed, dst
    ensures size > 0 ==> r == |src| && dst[..r] == src
    ensures |src| <= 0x7E00_0000 && packed.Length >= |src| + |src| / 255 + 16 ==> size > 0
  {
    size := CompressDefault(Hash4, Hash5, src, packed);
    r := DecompressSafe(packed[..size], dst);
  }
}
