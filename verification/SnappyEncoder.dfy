/** `carquet_snappy_compress`: the block compressor, its emitters and its size bound. */
module SnappyEncoder {
  import opened Bytes
  import opened Match
  import opened Options
  import opened SnappyFormat
  import opened MatchFinder

  const HASH_SIZE: nat := 16384
  const BLOCK_SIZE: nat := 65536

  /** `carquet_snappy_compress_bound` */
  function CompressBound(n: nat): (b: nat)
  {
    32 + n + n / 6
  }

  // ---- the length header ----

  /** The digits one by one. */
  method PutVarint(dst: array<byte>, value: nat) returns (op: nat)
    requires value < TWO32 && dst.Length >= 5
    modifies dst
    ensures 1 <= op <= 5 && dst[..op] == Varint(value)
    ensures forall k :: 5 <= k < dst.Length ==> dst[k] == old(dst[k])
  {
    VarintRoundTrip(value, []);
    var v := value;
    op := 0;
    while v >= 0x80
      invariant 0 <= op && op + |Varint(v)| == |Varint(value)|
      invariant dst[..op] + Varint(v) == Varint(value)
      invariant forall k :: 5 <= k < dst.Length ==> dst[k] == old(dst[k])
    {
      ghost var w := dst[..op];
      ConcatAssociates(w, [v % 128 + 128], Varint(v / 128));
      dst[op] := v % 128 + 128;
      assert dst[..op + 1] == w + [v % 128 + 128];
      v, op := v / 128, op + 1;
    }
    ghost var w := dst[..op];
    dst[op] := v;
    op := op + 1;
    assert dst[..op] == w + [v];
  }

  /** `snappy_write_varint`: the shortest header for the value, with its mark on all bytes but the last. */
  method WriteVarint(dst: array<byte>, value: nat) returns (op: nat)
    requires value < TWO32 && dst.Length >= 5
    modifies dst
    ensures 1 <= op <= 5 && dst[..op] == Varint(value)
    ensures IsVarint(dst[..op], op, 5) && SevenBits(dst[..op], op) == value
    ensures op > 1 ==> value >= Pow2(7 * (op - 1))
    ensures forall k :: 5 <= k < dst.Length ==> dst[k] == old(dst[k])
  {
    op := PutVarint(dst, value);
    HeaderWritten(value);
  }

  // ---- literals ----

  /** `31 - clz(n)`: the index of the highest set bit. */
  function Log2(n: nat): (k: nat)
  {
    if n < 2 then 0 else 1 + Log2(n / 2)
  }

  lemma {:induction false} Log2Below(n: nat, k: nat)
    requires n < Pow2(k + 1)
    ensures Log2(n) <= k
  {
    if n < 2 {
    } else {
      Log2Below(n / 2, k - 1);
    }
  }

  lemma Log2Shift(n: nat)
    requires n >= 256
    ensures Log2(n) == 8 + Log2(n / 256)
  {
    Log2Sixteenth(n);
    Log2Sixteenth(n / 16);
    assert n / 16 / 16 == n / 256;
  }

  lemma Log2Sixteenth(n: nat)
    requires n >= 16
    ensures Log2(n) == 4 + Log2(n / 16)
  {
    var a, b, c := n / 2, n / 4, n / 8;
    assert a / 2 == b && b / 2 == c && c / 2 == n / 16;
    assert Log2(n) == 1 + Log2(a) && Log2(a) == 1 + Log2(b);
    assert Log2(b) == 1 + Log2(c) && Log2(c) == 1 + Log2(n / 16);
  }

  /** The number of bytes that `snappy_emit_literal` spends on the length `n`. */
  function LengthBytes(n: nat): (count: nat)
  {
    Log2(n) / 8 + 1
  }

  /** It is the least number of bytes that hold `n`. */
  lemma {:induction false} LengthBytesFit(n: nat)
    ensures n < Pow256(LengthBytes(n))
    ensures n >= 256 ==> n >= Pow256(LengthBytes(n) - 1)
    ensures n < 256 ==> LengthBytes(n) == 1
  {
    if n < 256 {
      assert Pow2(8) == 256 by { assert Pow2(4) == 16; }
      Log2Below(n, 7);
    } else {
      Log2Shift(n);
      LengthBytesFit(n / 256);
      assert LengthBytes(n) == LengthBytes(n / 256) + 1;
    }
  }

  /** What the length of a literal of `len` bytes costs beside its tag. */
  function ExtraBytes(len: nat): (x: nat)
  {
    if len <= 60 then 0 else if len <= 256 then 1 else 2
  }

  /** The tag of a literal and its length bytes. */
  method EmitLiteralHead(dst: array<byte>, op: nat, len: nat, ghost wall: nat) returns (op': nat)
    requires 1 <= len <= BLOCK_SIZE && op + 1 + ExtraBytes(len) + len <= wall <= dst.Length
    modifies dst
    ensures op' == op + 1 + ExtraBytes(len)
    ensures len > 60 ==> len <= Pow256(ExtraBytes(len))
    ensures dst[op..op'] == if len <= 60 then [4 * (len - 1)]
                            else [4 * (59 + ExtraBytes(len))] + ToLE(len - 1, ExtraBytes(len))
    ensures forall k :: 0 <= k < op || wall <= k < dst.Length ==> dst[k] == old(dst[k])
  {
    var n := len - 1;
    if n < 60 {
      dst[op] := 4 * n;
      op' := op + 1;
    } else {
      var count := LengthBytes(n);
      CountOf(n);
      dst[op] := 4 * (59 + count);
      Put(dst, op + 1, ToLE(n, 4));
      ToLEPrefix(n, count, 4);
      assert dst[op + 1..op + 1 + count] == ToLE(n, 4)[..count];
      op' := op + 1 + count;
      assert dst[op..op'] == [dst[op]] + dst[op + 1..op'];
    }
  }

  /**
   * `snappy_emit_literal`. The 4-byte store of the length never reaches past the literal, because
   * only literals of more than 60 bytes have one.
   */
  method EmitLiteral(dst: array<byte>, op: nat, lit: seq<byte>, ghost wall: nat)
    returns (op': nat, ghost e: Element)
    requires 1 <= |lit| <= BLOCK_SIZE && op + 1 + ExtraBytes(|lit|) + |lit| <= wall <= dst.Length
    modifies dst
    ensures op' == op + 1 + ExtraBytes(|lit|) + |lit|
    ensures Legal(e) && Meaning(e) == Bytes(lit) && dst[op..op'] == Write(e)
    ensures forall k :: 0 <= k < op || wall <= k < dst.Length ==> dst[k] == old(dst[k])
  {
    var q := EmitLiteralHead(dst, op, |lit|, wall);
    ghost var head := dst[op..q];
    Put(dst, q, lit);
    op' := q + |lit|;
    e := Literal(ExtraBytes(|lit|), lit);
    assert dst[op..op'] == head + lit;
  }

  lemma CountOf(n: nat)
    requires 60 <= n < BLOCK_SIZE
    ensures LengthBytes(n) == if n < 256 then 1 else 2
    ensures n + 1 <= Pow256(LengthBytes(n))
  {
    LengthBytesFit(n);
    if n >= 256 {
      Log2Shift(n);
      LengthBytesFit(n / 256);
    }
  }

  // ---- copies ----

  /** The bytes of a 16-bit-offset copy, as the emitter stores them one by one. */
  method EmitCopy2(dst: array<byte>, op: nat, offset: nat, len: nat) returns (op': nat)
    requires op + 3 <= dst.Length && offset < 0x1_0000 && 1 <= len <= 64
    modifies dst
    ensures op' == op + 3 && dst[op..op'] == Write(Copy2(offset, len))
    ensures forall k :: 0 <= k < op || op' <= k < dst.Length ==> dst[k] == old(dst[k])
  {
    dst[op] := 4 * (len - 1) + 2;
    dst[op + 1] := offset % 256;
    dst[op + 2] := offset / 256;
    op' := op + 3;
    assert ToLE(offset, 2) == [offset % 256] + ToLE(offset / 256, 1);
    assert ToLE(offset / 256, 1) == [offset / 256 % 256] + [];
  }

  /** The last element of a match: 2 or 3 bytes, stored as one 32-bit word when the match is short. */
  method EmitLastCopy(dst: array<byte>, op: nat, offset: nat, len: nat, ghost wall: nat)
    returns (op': nat, ghost e: Element)
    requires 1 <= offset < 0x1_0000 && 4 <= len <= 64
    requires op + 4 <= wall <= dst.Length
    modifies dst
    ensures op' == op + LastSize(offset, len)
    ensures Legal(e) && Meaning(e) == Back(offset, len) && dst[op..op'] == Write(e)
    ensures forall k :: 0 <= k < op || wall <= k < dst.Length ==> dst[k] == old(dst[k])
  {
    if len < 12 && offset < 2048 {
      var u := 4 * len + 256 * offset + (1 - 16 + 32 * (offset / 256));
      ShortCopyWord(offset, len);
      Put(dst, op, ToLE(u, 4));
      op', e := op + 2, Copy1(offset, len);
      assert dst[op..op'] == ToLE(u, 4)[..2];
    } else if len < 12 {
      var u := 2 + 4 * (len - 1) + 256 * offset;
      WideCopyWord(offset, len);
      Put(dst, op, ToLE(u, 4));
      op', e := op + 3, Copy2(offset, len);
      assert dst[op..op'] == ToLE(u, 4)[..3];
    } else {
      op' := EmitCopy2(dst, op, offset, len);
      e := Copy2(offset, len);
    }
  }

  lemma ShortCopyWord(offset: nat, len: nat)
    requires offset < 2048 && 4 <= len < 12
    ensures ToLE(4 * len + 256 * offset + (1 - 16 + 32 * (offset / 256)), 4)[..2] == Write(Copy1(offset, len))
  {
    var high := offset / 256;
    Copy1Tag(high, len);
    var tag := 1 + 4 * (len - 4) + 32 * high;
    var u := tag + 256 * offset;
    assert u % 256 == tag && u / 256 == offset;
    ToLEPrefix(u, 2, 4);
    assert ToLE(u, 2) == [tag] + ToLE(offset, 1);
    assert ToLE(offset, 1) == [offset % 256] + [];
  }

  lemma WideCopyWord(offset: nat, len: nat)
    requires offset < 0x1_0000 && 1 <= len <= 64
    ensures ToLE(2 + 4 * (len - 1) + 256 * offset, 4)[..3] == Write(Copy2(offset, len))
  {
    var tag := 2 + 4 * (len - 1);
    var u := tag + 256 * offset;
    assert u % 256 == tag && u / 256 == offset;
    ToLEPrefix(u, 3, 4);
    assert ToLE(u, 3) == [tag] + ToLE(offset, 2);
  }

  method AppendCopy2(dst: array<byte>, op0: nat, op: nat, offset: nat, chunk: nat, ghost es: seq<Element>,
                     ghost out: seq<byte>, ghost n: nat)
    returns (op': nat, ghost es': seq<Element>)
    requires op0 <= op && op + 3 <= dst.Length && 1 <= offset < 0x1_0000 && 1 <= chunk <= 64 && offset <= |out|
    requires Emitted(dst[op0..op], es, offset, out, n)
    modifies dst
    ensures op' == op + 3 && Emitted(dst[op0..op'], es', offset, out, n + chunk)
    ensures forall k :: 0 <= k < op0 || op' <= k < dst.Length ==> dst[k] == old(dst[k])
  {
    ghost var w, e := dst[op0..op], Copy2(offset, chunk);
    op' := EmitCopy2(dst, op, offset, chunk);
    assert dst[op0..op'] == w + dst[op..op'];
    EmittedNext(w, es, offset, out, n, e);
    es' := es + [e];
  }

  method AppendLastCopy(dst: array<byte>, op0: nat, op: nat, offset: nat, rest: nat, ghost es: seq<Element>,
                        ghost out: seq<byte>, ghost n: nat, ghost wall: nat)
    returns (op': nat, ghost es': seq<Element>)
    requires op0 <= op && op + 4 <= wall <= dst.Length && 1 <= offset < 0x1_0000 && 4 <= rest <= 64
    requires offset <= |out| && Emitted(dst[op0..op], es, offset, out, n)
    modifies dst
    ensures op' == op + LastSize(offset, rest) && Emitted(dst[op0..op'], es', offset, out, n + rest)
    ensures forall k :: 0 <= k < op0 || wall <= k < dst.Length ==> dst[k] == old(dst[k])
  {
    ghost var w, e := dst[op0..op], Copy2(offset, rest);
    op', e := EmitLastCopy(dst, op, offset, rest, wall);
    assert dst[op0..op'] == w + dst[op..op'];
    EmittedNext(w, es, offset, out, n, e);
    es' := es + [e];
  }

  /** The bytes a match takes: 3 for every 64, 3 for 60 if 65 to 67 are left, and 2 or 3 for the rest. */
  function CopySize(offset: nat, len: nat): (n: nat)
  {
    if len >= 68 then 3 + CopySize(offset, len - 64)
    else if len > 64 then 3 + LastSize(offset, len - 60)
    else LastSize(offset, len)
  }

  function LastSize(offset: nat, len: nat): (n: nat)
  {
    if len < 12 && offset < 2048 then 2 else 3
  }

  /**
   * `snappy_emit_copy`: whatever the match length, the emitted elements carry the requested
   * offset, and executing them in order is one byte-at-a-time copy of the whole match.
   */
  method EmitCopy(dst: array<byte>, op: nat, offset: nat, len: nat, ghost out: seq<byte>, ghost wall: nat)
    returns (op': nat, ghost es: seq<Element>)
    requires 1 <= offset < 0x1_0000 && 4 <= len && offset <= |out|
    requires 64 * op + 65 * len + 61 <= 64 * wall && wall <= dst.Length
    modifies dst
    ensures op <= op' <= dst.Length && 64 * (op' - op) + 67 <= 65 * len
    ensures op' == op + CopySize(offset, len)
    ensures Emitted(dst[op..op'], es, offset, out, len)
    ensures forall k :: 0 <= k < op || wall <= k < dst.Length ==> dst[k] == old(dst[k])
  {
    op', es := op, [];
    var rest := len;
    assert dst[op..op] == [];
    while rest >= 68
      invariant 4 <= rest <= len && op <= op' <= dst.Length
      invariant 64 * (op' - op) <= 65 * (len - rest)
      invariant op' + CopySize(offset, rest) == op + CopySize(offset, len)
      invariant Emitted(dst[op..op'], es, offset, out, len - rest)
      invariant forall k :: 0 <= k < op || wall <= k < dst.Length ==> dst[k] == old(dst[k])
    {
      op', es := AppendCopy2(dst, op, op', offset, 64, es, out, len - rest);
      rest := rest - 64;
    }
    if rest > 64 {
      op', es := AppendCopy2(dst, op, op', offset, 60, es, out, len - rest);
      rest := rest - 60;
    }
    op', es := AppendLastCopy(dst, op, op', offset, rest, es, out, len - rest, wall);
  }

  /** `w` holds the elements `es`, which copy `n` bytes of the match onto `out`. */
  ghost predicate Emitted(w: seq<byte>, es: seq<Element>, offset: nat, out: seq<byte>, n: nat)
    requires 0 < offset <= |out|
  {
    && LegalStream(es) && w == WriteAll(es)
    && (forall i :: 0 <= i < |es| ==> !es[i].Literal? && Meaning(es[i]).offset == offset)
    && Execute(out, es) == Some(CopyMatch(out, offset, n))
  }

  lemma EmittedNext(w: seq<byte>, es: seq<Element>, offset: nat, out: seq<byte>, n: nat, e: Element)
    requires 0 < offset <= |out| && Emitted(w, es, offset, out, n)
    requires Legal(e) && !e.Literal? && Meaning(e).offset == offset
    ensures Emitted(w + Write(e), es + [e], offset, out, n + Meaning(e).len)
  {
    JoinConcat(Write, es, [e]);
    JoinOne(Write, e);
    ExecuteConcat(out, es, [e]);
    CopyMatchSplit(out, offset, n, Meaning(e).len);
    assert [e][1..] == [];
  }

  // ---- finding matches ----

  /** `fast_match_length`: the longest run from `p` that repeats what stands `offset` before it. */
  method MatchLength(s: seq<byte>, p: nat, offset: nat) returns (n: nat)
    requires 0 < offset <= p <= |s|
    ensures p + n <= |s| && Repeats(s, offset, p, p + n)
    ensures p + n == |s| || s[p + n] != s[p + n - offset]
  {
    var q := p;
    while q + 8 <= |s|
      invariant p <= q <= |s| && Repeats(s, offset, p, q)
    {
      var a, b := Load64(s, q), Load64(s, q - offset);
      if a != b {
        var k := CtzXor(a, b) / 8;
        FirstDifference(s, q, offset);
        return q - p + k;
      }
      LEInjective(s[q..q + 8], s[q - offset..q - offset + 8]);
      SameSlice(s, q - offset, q, 8);
      q := q + 8;
    }
    while q < |s| && s[q] == s[q - offset]
      invariant p <= q <= |s| && Repeats(s, offset, p, q)
    {
      q := q + 1;
    }
    return q - p;
  }

  /** The skip-ahead search, from `start` to the last 15 bytes of the block. */
  method FindMatch(s: seq<byte>, table: array<nat>, hash: nat -> nat, start: nat)
    returns (found: bool, ip: nat, candidate: nat)
    requires 15 <= |s| <= BLOCK_SIZE && start <= |s| - 14
    requires forall v :: hash(v) < HASH_SIZE
    requires table.Length == HASH_SIZE && Below(table, start)
    modifies table
    ensures found ==> start <= ip < |s| - 15 && Matches(s, candidate, ip) && Below(table, ip + 1)
    ensures var first := old(table[hash(Load32(s, start))]);
            start + 16 <= |s| && Load32(s, first) == Load32(s, start) ==>
              found && ip == start && candidate == first
  {
    ip, candidate := start, 0;
    var skip := 32;
    while true
      invariant start <= ip <= |s| - 14 && skip >= 32
      invariant Below(table, ip)
      invariant ip == start ==> skip == 32 && unchanged(table)
      invariant ip > start ==> Load32(s, old(table[hash(Load32(s, start))])) != Load32(s, start)
      decreases |s| - ip
    {
      var h := hash(Load32(s, ip));
      var between := skip / 32;
      skip := skip + between;
      var next := ip + between;
      if next > |s| - 15 {
        return false, ip, candidate;
      }
      candidate := Exchange(table, h, ip, 0x1_0000);
      if Load32(s, ip) == Load32(s, candidate) {
        LoadsMatch(s, candidate, ip);
        return true, ip, candidate;
      }
      ip := next;
    }
  }

  /**
   * The fast start: positions 1 to 16, with the words shifted out of two 64-bit loads per four
   * positions. Returns the number of positions passed over when none matches.
   */
  method FindStartMatch(s: seq<byte>, table: array<nat>, hash: nat -> nat)
    returns (found: bool, i: nat, candidate: nat)
    requires 32 <= |s| <= BLOCK_SIZE
    requires forall v :: hash(v) < HASH_SIZE
    requires table.Length == HASH_SIZE && Below(table, 1)
    modifies table
    ensures found ==> i < 16 && Matches(s, candidate, 1 + i) && Below(table, 2 + i)
    ensures !found ==> Below(table, 17)
    ensures Load32(s, 0) == Load32(s, 1) ==> found && i == 0 && candidate == 0
  {
    var data := Load64(s, 1);
    candidate := 0;
    for j := 0 to 4
      invariant data == Load64(s, 1 + 4 * j) && Below(table, 1 + 4 * j)
      invariant Load32(s, 0) == Load32(s, 1) ==> j == 0
    {
      found, i, candidate := FindInWord(s, table, hash, 4 * j, data);
      if found {
        return;
      }
      data := Load64(s, 1 + 4 * j + 4);
    }
    return false, 16, candidate;
  }

  /** Four of these positions, from one 8-byte word that is shifted along. */
  method FindInWord(s: seq<byte>, table: array<nat>, hash: nat -> nat, start: nat, word: nat)
    returns (found: bool, i: nat, candidate: nat)
    requires start <= 12 && 32 <= |s| <= BLOCK_SIZE && word == Load64(s, 1 + start)
    requires forall v :: hash(v) < HASH_SIZE
    requires table.Length == HASH_SIZE && Below(table, 1 + start)
    modifies table
    ensures found ==> start <= i < start + 4 && Matches(s, candidate, 1 + i) && Below(table, 2 + i)
    ensures !found ==> Below(table, 1 + start + 4)
    ensures start == 0 && Load32(s, 0) == Load32(s, 1) ==> found && i == 0 && candidate == 0
  {
    var data, end := word, 1 + start + 8;
    i, candidate := start, 0;
    for k := 0 to 4
      invariant i == start + k && data == LE(s[1 + i..end]) && Below(table, 1 + i)
      invariant start == 0 && Load32(s, 0) == Load32(s, 1) ==> k == 0
    {
      var dword := if i == 0 then Load32(s, 1) else data % TWO32;
      ShiftedWord(s, 1 + i, end);
      candidate := Exchange(table, hash(dword), 1 + i, 0x1_0000);
      if Load32(s, candidate) == dword {
        LoadsMatch(s, candidate, 1 + i);
        return true, i, candidate;
      }
      data, i := data / 256, i + 1;
    }
    found := false;
  }

  /** The low 32 bits of a wider word are the word of its first four bytes; a shift drops a byte. */
  lemma ShiftedWord(s: seq<byte>, p: nat, q: nat)
    requires p + 4 <= q <= |s|
    ensures LE(s[p..q]) % TWO32 == Load32(s, p)
    ensures LE(s[p..q]) / 256 == LE(s[p + 1..q])
  {
    var t := s[p..q];
    LEStep(t);
    assert t[1..] == s[p + 1..q];
    LowWord(t);
    assert t[..4] == s[p..p + 4];
  }

  lemma LowWord(t: seq<byte>)
    requires |t| >= 4
    ensures LE(t) % TWO32 == LE(t[..4])
  {
    LESplit(t, 4);
    LEBound(t[..4]);
    FourBytes();
    LowPart(LE(t[..4]), LE(t[4..]));
  }

  lemma FourBytes()
    ensures Pow256(4) == TWO32
  {
    assert Pow256(4) == 256 * Pow256(3);
  }

  lemma LowPart(low: nat, high: nat)
    requires low < TWO32
    ensures (low + TWO32 * high) % TWO32 == low
  {
  }
}
