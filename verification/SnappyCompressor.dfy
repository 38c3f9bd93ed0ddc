/** The block loop of the Snappy compressor, and the compressor and decoder together. */
module SnappyCompressor {
  import opened Bytes
  import opened Match
  import opened Options
  import opened SnappyFormat
  import opened MatchFinder
  import opened SnappyEncoder
  import opened SnappyDecoder

  // ---- what has been written so far ----

  /** `w` holds the elements `es`, which add the first `n` bytes of block `s` to the output `pre`. */
  ghost predicate Covers(w: seq<byte>, es: seq<Element>, pre: seq<byte>, s: seq<byte>, n: nat)
  {
    n <= |s| && LegalStream(es) && w == WriteAll(es) && Execute(pre, es) == Some(pre + s[..n])
  }

  lemma CoversAppend(w: seq<byte>, es: seq<Element>, pre: seq<byte>, s: seq<byte>, n: nat, fs: seq<Element>, m: nat)
    requires Covers(w, es, pre, s, n) && m <= |s|
    requires LegalStream(fs) && Execute(pre + s[..n], fs) == Some(pre + s[..m])
    ensures Covers(w + WriteAll(fs), es + fs, pre, s, m)
  {
    JoinConcat(Write, es, fs);
    ExecuteConcat(pre, es, fs);
  }

  lemma CoversNothing(pre: seq<byte>, s: seq<byte>)
    ensures Covers([], [], pre, s, 0)
  {
    assert pre + s[..0] == pre;
  }

  lemma CoversLiteral(w: seq<byte>, es: seq<Element>, pre: seq<byte>, s: seq<byte>, n: nat, m: nat, e: Element)
    requires Covers(w, es, pre, s, n) && n <= m <= |s|
    requires Legal(e) && Meaning(e) == Bytes(s[n..m])
    ensures Covers(w + Write(e), es + [e], pre, s, m)
  {
    JoinOne(Write, e);
    assert [e][1..] == [];
    assert pre + s[..n] + s[n..m] == pre + s[..m];
    CoversAppend(w, es, pre, s, n, [e], m);
  }

  lemma CoversMatch(w: seq<byte>, es: seq<Element>, pre: seq<byte>, s: seq<byte>, n: nat, offset: nat, len: nat,
                    v: seq<byte>, fs: seq<Element>)
    requires 0 < offset <= n && n + len <= |s| && Covers(w, es, pre, s, n)
    requires Repeats(s, offset, n, n + len)
    requires Emitted(v, fs, offset, pre + s[..n], len)
    ensures Covers(w + v, es + fs, pre, s, n + len)
  {
    var out, all := pre + s[..n], pre + s[..n + len];
    assert all[..|out|] == out;
    forall k | |out| <= k < |all| ensures all[k] == all[k - offset] {
      assert all[k] == s[k - |pre|];
    }
    RepeatsIsCopyMatch(all, out, offset);
    CoversAppend(w, es, pre, s, n, fs, n + len);
  }

  // ---- emitting from a block ----

  method AppendLiteral(s: seq<byte>, from: nat, to: nat, dst: array<byte>, op0: nat, op: nat, ghost es: seq<Element>,
                       ghost pre: seq<byte>, ghost wall: nat)
    returns (op': nat, ghost es': seq<Element>)
    requires from < to <= |s| <= BLOCK_SIZE && op0 <= op
    requires op + 1 + ExtraBytes(to - from) + (to - from) <= wall <= dst.Length
    requires Covers(dst[op0..op], es, pre, s, from)
    modifies dst
    ensures op' == op + 1 + ExtraBytes(to - from) + (to - from)
    ensures Covers(dst[op0..op'], es', pre, s, to)
    ensures forall k :: 0 <= k < op0 || wall <= k < dst.Length ==> dst[k] == old(dst[k])
  {
    ghost var w := dst[op0..op];
    ghost var e;
    op', e := EmitLiteral(dst, op, s[from..to], wall);
    assert dst[op0..op'] == w + dst[op..op'];
    CoversLiteral(w, es, pre, s, from, to, e);
    es' := es + [e];
  }

  lemma StartLiteral(s: seq<byte>, i: nat)
    requires i < 16 <= |s|
    ensures [] + Write(Literal(0, s[0..i + 1])) == [4 * i] + s[..16][..i + 1]
  {
    assert s[0..i + 1] == s[..16][..i + 1];
  }

  /** The fast start's own literal: the tag of `i + 1` bytes and a blind 16-byte store. */
  method AppendStartLiteral(s: seq<byte>, i: nat, dst: array<byte>, op: nat, ghost pre: seq<byte>, ghost wall: nat)
    returns (op': nat, ghost es': seq<Element>)
    requires i < 16 <= |s| && op + 17 <= wall <= dst.Length
    modifies dst
    ensures op' == op + i + 2
    ensures Covers(dst[op..op'], es', pre, s, i + 1)
    ensures forall k :: 0 <= k < op || wall <= k < dst.Length ==> dst[k] == old(dst[k])
  {
    dst[op] := 4 * i;
    Put(dst, op + 1, s[..16]);
    op' := op + i + 2;
    ghost var e := Literal(0, s[0..i + 1]);
    StartLiteral(s, i);
    assert dst[op + 1..op'] == s[..16][..i + 1];
    assert dst[op..op'] == [dst[op]] + dst[op + 1..op'];
    CoversNothing(pre, s);
    CoversLiteral([], [], pre, s, 0, i + 1, e);
    es' := [] + [e];
  }

  /** The whole length of a match of which four bytes are known. */
  method MeasureMatch(s: seq<byte>, candidate: nat, ip: nat) returns (len: nat)
    requires Matches(s, candidate, ip)
    ensures len >= 4 && ip + len <= |s| && Repeats(s, ip - candidate, ip, ip + len)
    ensures ip + len == |s| || s[ip + len] != s[candidate + len]
  {
    var more := MatchLength(s, ip + 4, ip - candidate);
    len := 4 + more;
  }

  /** A match as copies behind what is there. */
  method AppendCopies(s: seq<byte>, ip: nat, offset: nat, len: nat, dst: array<byte>, ghost op0: nat, op: nat,
                      ghost es: seq<Element>, ghost pre: seq<byte>, ghost wall: nat)
    returns (op': nat, ghost es': seq<Element>)
    requires 0 < offset <= ip && offset < 0x1_0000 && 4 <= len && ip + len <= |s| && Repeats(s, offset, ip, ip + len)
    requires op0 <= op && 64 * op + 65 * len + 61 <= 64 * wall && wall <= dst.Length
    requires Covers(dst[op0..op], es, pre, s, ip)
    modifies dst
    ensures op <= op' <= dst.Length && 64 * (op' - op) + 67 <= 65 * len && op' == op + CopySize(offset, len)
    ensures Covers(dst[op0..op'], es', pre, s, ip + len)
    ensures forall k :: 0 <= k < op0 || wall <= k < dst.Length ==> dst[k] == old(dst[k])
  {
    ghost var w, v, fs := dst[op0..op], [], [];
    op', fs := EmitCopy(dst, op, offset, len, pre + s[..ip], wall);
    v := dst[op..op'];
    assert dst[op0..op] == w;
    assert dst[op0..op'] == dst[op0..op] + v;
    CoversMatch(w, es, pre, s, ip, offset, len, v, fs);
    es' := es + fs;
  }

  /** One verified match: measured, then emitted. */
  method AppendMatch(s: seq<byte>, ip: nat, candidate: nat, dst: array<byte>, op0: nat, op: nat, ghost es: seq<Element>,
                     ghost pre: seq<byte>, ghost wall: nat)
    returns (ip': nat, op': nat, ghost es': seq<Element>)
    requires |s| <= BLOCK_SIZE && Matches(s, candidate, ip) && op0 <= op
    requires 64 * op + 65 * (|s| - ip) + 61 <= 64 * wall && wall <= dst.Length
    requires Covers(dst[op0..op], es, pre, s, ip)
    modifies dst
    ensures ip + 4 <= ip' <= |s| && op <= op' <= dst.Length && 64 * (op' - op) + 67 <= 65 * (ip' - ip)
    ensures ip' == |s| || s[ip'] != s[ip' - (ip - candidate)]
    ensures op' == op + CopySize(ip - candidate, ip' - ip)
    ensures Covers(dst[op0..op'], es', pre, s, ip')
    ensures forall k :: 0 <= k < op0 || wall <= k < dst.Length ==> dst[k] == old(dst[k])
  {
    var len := MeasureMatch(s, candidate, ip);
    op', es' := AppendCopies(s, ip, ip - candidate, len, dst, op0, op, es, pre, wall);
    ip' := ip + len;
  }

  /**
   * The inner loop at `emit_match`: emits matches as long as the position right after one matches
   * again. Ends at `ip`, which is past the search limit when `done`.
   */
  method AppendMatches(s: seq<byte>, ip: nat, candidate: nat, table: array<nat>, hash: nat -> nat, dst: array<byte>,
                       op0: nat, op: nat, ghost es: seq<Element>, ghost pre: seq<byte>, ghost wall: nat)
    returns (done: bool, ip': nat, op': nat, ghost es': seq<Element>)
    requires 15 <= |s| <= BLOCK_SIZE && Matches(s, candidate, ip) && op0 <= op
    requires forall v :: hash(v) < HASH_SIZE
    requires table.Length == HASH_SIZE && Below(table, ip + 1)
    requires 64 * (op - op0) <= 65 * ip + 67
    requires 64 * op0 + 65 * |s| + 128 <= 64 * wall && wall <= dst.Length
    requires Covers(dst[op0..op], es, pre, s, ip)
    modifies table, dst
    ensures ip < ip' <= |s| && op0 <= op' <= dst.Length && 64 * (op' - op0) <= 65 * ip'
    ensures Covers(dst[op0..op'], es', pre, s, ip')
    ensures !done ==> ip' < |s| - 15 && Below(table, ip' + 1)
    ensures Uniform(s) ==> done && ip' == |s| && op' == op + CopySize(ip - candidate, |s| - ip)
    ensures forall k :: 0 <= k < op0 || wall <= k < dst.Length ==> dst[k] == old(dst[k])
  {
    ip', op', es' := ip, op, es;
    var c := candidate;
    while true
      invariant ip <= ip' && Matches(s, c, ip') && op0 <= op' <= dst.Length
      invariant Below(table, ip' + 1)
      invariant 64 * (op' - op0) <= 65 * ip' + 67
      invariant Covers(dst[op0..op'], es', pre, s, ip')
      invariant Uniform(s) ==> ip' == ip && op' == op && c == candidate
      invariant forall k :: 0 <= k < op0 || wall <= k < dst.Length ==> dst[k] == old(dst[k])
      decreases |s| - ip'
    {
      ip', op', es' := AppendMatch(s, ip', c, dst, op0, op', es', pre, wall);
      if ip' >= |s| - 15 {
        return true, ip', op', es';
      }
      var _ := Exchange(table, hash(Load32(s, ip' - 1)), ip' - 1, 0x1_0000);
      c := Exchange(table, hash(Load32(s, ip')), ip', 0x1_0000);
      if !(Load32(s, ip') == Load32(s, c) && ip' - c <= 65535) {
        return false, ip', op', es';
      }
      LoadsMatch(s, c, ip');
    }
  }

  // ---- one block ----

  /** What a block of `n` equal bytes becomes: a literal, or a literal of one byte and its repetition. */
  function RunBlock(n: nat): (size: nat)
  {
    if n == 0 then 0 else if n < 17 then 1 + n else 2 + CopySize(1, n - 1)
  }

  /** What `n` equal bytes become, block by block. */
  function RunSize(n: nat): (size: nat)
  {
    if n <= 65536 then RunBlock(n) else RunBlock(65536) + RunSize(n - 65536)
  }

  method CompressBlock(s: seq<byte>, hash: nat -> nat, dst: array<byte>, op: nat, ghost pre: seq<byte>, ghost wall: nat)
    returns (op': nat, ghost es: seq<Element>)
    requires |s| <= BLOCK_SIZE
    requires forall v :: hash(v) < HASH_SIZE
    requires 64 * op + 65 * |s| + 67 + 64 * 17 <= 64 * wall && wall <= dst.Length
    modifies dst
    ensures op <= op' <= dst.Length && 64 * (op' - op) <= 65 * |s| + 67
    ensures Covers(dst[op..op'], es, pre, s, |s|)
    ensures Uniform(s) ==> op' == op + RunBlock(|s|)
    ensures forall k :: 0 <= k < op || wall <= k < dst.Length ==> dst[k] == old(dst[k])
  {
    op', es := op, [];
    assert dst[op..op] == [];
    CoversNothing(pre, s);
    if |s| == 0 {
      return;
    }
    if |s| < 15 {
      op', es := AppendLiteral(s, 0, |s|, dst, op, op, [], pre, wall);
      return;
    }
    var anchor: nat;
    anchor, op', es := CompressMatches(s, hash, dst, op, pre, wall);
    if anchor < |s| {
      op', es := AppendLiteral(s, anchor, |s|, dst, op, op', es, pre, wall);
    }
  }

  /** The fast start and, if it finds nothing, the first search: up to the first match. */
  method FirstMatch(s: seq<byte>, table: array<nat>, hash: nat -> nat, dst: array<byte>, op: nat, ghost pre: seq<byte>,
                    ghost wall: nat)
    returns (found: bool, ip: nat, candidate: nat, op': nat, ghost es: seq<Element>)
    requires 15 <= |s| <= BLOCK_SIZE
    requires forall v :: hash(v) < HASH_SIZE
    requires table.Length == HASH_SIZE && Below(table, 1)
    requires 64 * op + 65 * |s| + 67 + 64 * 17 <= 64 * wall && wall <= dst.Length
    modifies table, dst
    ensures op <= op' <= dst.Length
    ensures found ==> 0 < ip && Matches(s, candidate, ip) && Below(table, ip + 1)
    ensures Covers(dst[op..op'], es, pre, s, if found then ip else 0)
    ensures 64 * (op' - op) <= if found then 65 * ip + 67 else 0
    ensures |s| < 17 ==> !found
    ensures |s| >= 17 && Uniform(s) ==> found && ip == 1 && candidate == 0 && op' == op + 2
    ensures forall k :: 0 <= k < op || wall <= k < dst.Length ==> dst[k] == old(dst[k])
  {
    op', es := op, [];
    assert dst[op..op] == [];
    CoversNothing(pre, s);
    found, ip, candidate := false, 1, 0;
    if Uniform(s) {
      UniformLoads(s, 0, 1);
    }
    if |s| - 15 - ip >= 16 {
      var i;
      found, i, candidate := FindStartMatch(s, table, hash);
      if found {
        op', es := AppendStartLiteral(s, i, dst, op, pre, wall);
        ip := ip + i;
        return;
      }
      ip := ip + 16;
    }
    found, ip, candidate := FindMatch(s, table, hash, ip);
    if found {
      op', es := AppendLiteral(s, 0, ip, dst, op, op, es, pre, wall);
    }
  }

  /** Everything up to `emit_remainder`: the bytes from `anchor` on are still to be written. */
  method CompressMatches(s: seq<byte>, hash: nat -> nat, dst: array<byte>, op: nat, ghost pre: seq<byte>,
                         ghost wall: nat)
    returns (anchor: nat, op': nat, ghost es: seq<Element>)
    requires 15 <= |s| <= BLOCK_SIZE
    requires forall v :: hash(v) < HASH_SIZE
    requires 64 * op + 65 * |s| + 67 + 64 * 17 <= 64 * wall && wall <= dst.Length
    modifies dst
    ensures anchor <= |s| && op <= op' <= dst.Length && 64 * (op' - op) <= 65 * anchor
    ensures |s| < 17 ==> anchor == 0 && op' == op
    ensures |s| >= 17 && Uniform(s) ==> anchor == |s| && op' == op + RunBlock(|s|)
    ensures Covers(dst[op..op'], es, pre, s, anchor)
    ensures forall k :: 0 <= k < op || wall <= k < dst.Length ==> dst[k] == old(dst[k])
  {
    var table := new nat[HASH_SIZE](_ => 0);
    table[hash(Load32(s, 0))] := 0;
    anchor := 0;
    var found, ip, candidate;
    found, ip, candidate, op', es := FirstMatch(s, table, hash, dst, op, pre, wall);
    while found
      invariant anchor <= |s| && op <= op' <= dst.Length
      invariant found ==> Matches(s, candidate, ip) && Below(table, ip + 1) && anchor < ip
      invariant if found then Covers(dst[op..op'], es, pre, s, ip) && 64 * (op' - op) <= 65 * ip + 67
                else Covers(dst[op..op'], es, pre, s, anchor) && 64 * (op' - op) <= 65 * anchor
      invariant forall k :: 0 <= k < op || wall <= k < dst.Length ==> dst[k] == old(dst[k])
      invariant |s| < 17 ==> !found && anchor == 0 && op' == op
      invariant |s| >= 17 && Uniform(s) ==> found && ip == 1 && candidate == 0 && op' == op + 2
      decreases |s| - anchor, found
    {
      var done;
      done, anchor, op', es := AppendMatches(s, ip, candidate, table, hash, dst, op, op', es, pre, wall);
      if done {
        return;
      }
      found, ip, candidate, op', es := NextMatch(s, anchor, table, hash, dst, op, op', es, pre, wall);
    }
  }

  /** The search behind a match, and the literals up to what it finds. */
  method NextMatch(s: seq<byte>, anchor: nat, table: array<nat>, hash: nat -> nat, dst: array<byte>, op0: nat, op: nat,
                   ghost es: seq<Element>, ghost pre: seq<byte>, ghost wall: nat)
    returns (found: bool, ip: nat, candidate: nat, op': nat, ghost es': seq<Element>)
    requires 15 <= |s| <= BLOCK_SIZE && anchor < |s| - 15
    requires forall v :: hash(v) < HASH_SIZE
    requires table.Length == HASH_SIZE && Below(table, anchor + 1) && op0 <= op && 64 * (op - op0) <= 65 * anchor
    requires 64 * op0 + 65 * |s| + 67 + 64 * 17 <= 64 * wall && wall <= dst.Length
    requires Covers(dst[op0..op], es, pre, s, anchor)
    modifies table, dst
    ensures op0 <= op' <= dst.Length
    ensures found ==> anchor < ip && Matches(s, candidate, ip) && Below(table, ip + 1)
    ensures found ==> Covers(dst[op0..op'], es', pre, s, ip) && 64 * (op' - op0) <= 65 * ip + 67
    ensures !found ==> op' == op && Covers(dst[op0..op], es', pre, s, anchor)
    ensures forall k :: 0 <= k < op0 || wall <= k < dst.Length ==> dst[k] == old(dst[k])
  {
    op', es' := op, es;
    found, ip, candidate := FindMatch(s, table, hash, anchor + 1);
    if found {
      op', es' := AppendLiteral(s, anchor, ip, dst, op0, op, es, pre, wall);
    }
  }

  // ---- the whole input ----

  /** A header and a stream of the format, put together, decode to what the stream produces. */
  lemma StreamDecodes(src: seq<byte>, es: seq<Element>, capacity: nat)
    requires |src| < TWO32 && |src| <= capacity
    requires LegalStream(es) && Execute([], es) == Some(src)
    ensures Decode(Varint(|src|) + WriteAll(es), capacity) == Some(src)
  {
    var h, w := Varint(|src|), WriteAll(es);
    VarintRoundTrip(|src|, w);
    assert (h + w)[|h|..] == w;
    RunWriteAll(es, [], |src|);
  }

  /** The bound leaves room for a block, even one that does not shrink. */
  lemma BlockFits(header: nat, op: nat, pos: nat, size: nat, n: nat)
    requires header <= 5 && header <= op && 64 * (op - header) <= 66 * pos && pos + size <= n
    ensures 64 * op + 65 * size + 67 + 64 * 17 <= 64 * CompressBound(n)
  {
  }

  lemma BlockCost(header: nat, op: nat, op': nat, pos: nat, size: nat, n: nat)
    requires header <= op <= op' && 64 * (op - header) <= 66 * pos && 64 * (op' - op) <= 65 * size + 67
    requires pos + size <= n && (size == BLOCK_SIZE || pos + size == n)
    ensures 64 * (op' - header) <= 66 * (pos + size) + (if pos + size == n then 67 else 0)
  {
  }

  /** A block, compressed by itself with a fresh table, behind the blocks before it. */
  method AppendBlock(src: seq<byte>, pos: nat, size: nat, hash: nat -> nat, dst: array<byte>, ghost header: nat,
                     op: nat, ghost es: seq<Element>, ghost wall: nat)
    returns (op': nat, ghost es': seq<Element>)
    requires forall v :: hash(v) < HASH_SIZE
    requires pos + size <= |src| && size <= BLOCK_SIZE && header <= op
    requires 64 * op + 65 * size + 67 + 64 * 17 <= 64 * wall && wall <= dst.Length
    requires Covers(dst[header..op], es, [], src, pos)
    modifies dst
    ensures op <= op' <= dst.Length && 64 * (op' - op) <= 65 * size + 67
    ensures Covers(dst[header..op'], es', [], src, pos + size)
    ensures Uniform(src) ==> op' == op + RunBlock(size)
    ensures forall k :: 0 <= k < header || wall <= k < dst.Length ==> dst[k] == old(dst[k])
  {
    ghost var w := dst[header..op];
    ghost var v, fs;
    if Uniform(src) {
      UniformSlice(src, pos, pos + size);
    }
    op', fs := CompressBlock(src[pos..pos + size], hash, dst, op, src[..pos], wall);
    v := dst[op..op'];
    assert dst[header..op] == w;
    assert dst[header..op'] == dst[header..op] + v;
    BlockCovers(w, es, src, pos, size, v, fs);
    es' := es + fs;
  }

  /** The next block of at most 64 KiB. */
  method CompressNext(src: seq<byte>, pos: nat, hash: nat -> nat, dst: array<byte>, ghost header: nat, op: nat,
                      ghost es: seq<Element>, ghost wall: nat)
    returns (pos': nat, op': nat, ghost es': seq<Element>)
    requires forall v :: hash(v) < HASH_SIZE
    requires pos < |src| && header <= op && header <= 5 && CompressBound(|src|) == wall <= dst.Length
    requires 64 * (op - header) <= 66 * pos && Covers(dst[header..op], es, [], src, pos)
    modifies dst
    ensures pos < pos' <= |src| && op <= op' <= dst.Length
    ensures 64 * (op' - header) <= 66 * pos' + (if pos' == |src| then 67 else 0)
    ensures Covers(dst[header..op'], es', [], src, pos')
    ensures Uniform(src) ==> op' + RunSize(|src| - pos') == op + RunSize(|src| - pos)
    ensures forall k :: 0 <= k < header || wall <= k < dst.Length ==> dst[k] == old(dst[k])
  {
    var size := if |src| - pos > BLOCK_SIZE then BLOCK_SIZE else |src| - pos;
    BlockFits(header, op, pos, size, |src|);
    op', es' := AppendBlock(src, pos, size, hash, dst, header, op, es, wall);
    BlockCost(header, op, op', pos, size, |src|);
    pos' := pos + size;
  }

  /** The loop over the blocks. */
  method CompressBlocks(src: seq<byte>, hash: nat -> nat, dst: array<byte>, header: nat, ghost wall: nat)
    returns (op: nat, ghost es: seq<Element>)
    requires forall v :: hash(v) < HASH_SIZE
    requires header <= 5 && CompressBound(|src|) == wall <= dst.Length
    modifies dst
    ensures header <= op <= wall
    ensures Covers(dst[header..op], es, [], src, |src|)
    ensures Uniform(src) ==> op == header + RunSize(|src|)
    ensures forall k :: 0 <= k < header || wall <= k < dst.Length ==> dst[k] == old(dst[k])
  {
    var pos := 0;
    op, es := header, [];
    assert dst[header..header] == [];
    CoversNothing([], src);
    while pos < |src|
      invariant pos <= |src| && header <= op <= dst.Length
      invariant 64 * (op - header) <= 66 * pos + (if pos == |src| then 67 else 0)
      invariant Covers(dst[header..op], es, [], src, pos)
      invariant Uniform(src) ==> op + RunSize(|src| - pos) == header + RunSize(|src|)
      invariant forall k :: 0 <= k < header || wall <= k < dst.Length ==> dst[k] == old(dst[k])
    {
      pos, op, es := CompressNext(src, pos, hash, dst, header, op, es, wall);
    }
  }

  /**
   * `carquet_snappy_compress`, for every input below 2^32 bytes and every hash function. It
   * succeeds exactly when the buffer meets the bound; no store, final or transient, passes the
   * bound; and what it wrote decodes to the input whenever there is room for it.
   */
  method Compress(src: seq<byte>, hash: nat -> nat, dst: array<byte>) returns (status: Status, size: nat)
    requires |src| < TWO32
    requires forall v :: hash(v) < HASH_SIZE
    modifies dst
    ensures status == (if dst.Length < 32 + |src| + |src| / 6 then CompressionError else Ok)
    ensures status == Ok ==> size <= 32 + |src| + |src| / 6
    ensures status == Ok ==> forall capacity :: capacity >= |src| ==> Decode(dst[..size], capacity) == Some(src)
    ensures forall k :: 32 + |src| + |src| / 6 <= k < dst.Length ==> dst[k] == old(dst[k])
    ensures status == Ok && Uniform(src) ==> size == |Varint(|src|)| + RunSize(|src|)
  {
    if dst.Length < CompressBound(|src|) {
      return CompressionError, 0;
    }
    var header := WriteVarint(dst, |src|);
    var op, es := CompressBlocks(src, hash, dst, header, CompressBound(|src|));
    assert dst[..header] == Varint(|src|);
    assert src[..|src|] == src && [] + src == src;
    assert dst[..op] == dst[..header] + dst[header..op];
    forall capacity | capacity >= |src| ensures Decode(dst[..op], capacity) == Some(src) {
      StreamDecodes(src, es, capacity);
    }
    return Ok, op;
  }

  lemma BlockCovers(w: seq<byte>, es: seq<Element>, src: seq<byte>, pos: nat, size: nat, v: seq<byte>, fs: seq<Element>)
    requires pos + size <= |src| && Covers(w, es, [], src, pos)
    requires Covers(v, fs, src[..pos], src[pos..pos + size], size)
    ensures Covers(w + v, es + fs, [], src, pos + size)
  {
    assert [] + src[..pos] == src[..pos];
    assert src[pos..pos + size][..size] == src[pos..pos + size];
    assert src[..pos] + src[pos..pos + size] == [] + src[..pos + size];
    CoversAppend(w, es, [], src, pos, fs, pos + size);
  }

  /** The hash in use, `(v * 0x1e35a7bd) >> 18` in 32 bits, is one of the hash functions above. */
  function SnappyHash(v: nat): (h: nat)
    ensures h < HASH_SIZE
  {
    v * 0x1e35a7bd % TWO32 / 0x4_0000
  }

  /** Compressing and decompressing, with either copy build, gives the input back. */
  method RoundTrip(build: SnappyCopy.Build, src: seq<byte>, packed: array<byte>, dst: array<byte>)
    returns (status: Status, size: nat)
    requires |src| < TWO32 && packed != dst
    requires packed.Length >= 32 + |src| + |src| / 6 && dst.Length >= |src|
    modifies packed, dst
    ensures status == Ok && size == |src| && dst[..size] == src
  {
    status, size := Compress(src, SnappyHash, packed);
    status, size := Decompress(build, packed[..size], dst);
  }
}
