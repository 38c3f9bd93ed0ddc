/** `carquet_snappy_decompress`: the decoder with its wide copies, against the reference decoder. */
module SnappyDecoder {
  import opened Bytes
  import opened Match
  import opened Options
  import opened SnappyCopy
  import opened SnappyFormat

  datatype Status = Ok | InvalidCompressedData | CompressionError

  // ---- the tag table ----

  /** Sixteen consecutive entries of `kLengthMinusOffset`. */
  function LengthMinusOffsetRow(r: nat): (row: seq<int>)
    requires r < 16
    ensures |row| == 16
  {
    match r
    case 0 => [-255, 4, 1, 255, -254, 5, 2, 255, -253, 6, 3, 255, -252, 7, 4, 255]
    case 1 => [-251, 8, 5, 255, -250, 9, 6, 255, -249, 10, 7, 255, -248, 11, 8, 255]
    case 2 => [-247, -252, 9, 255, -246, -251, 10, 255, -245, -250, 11, 255, -244, -249, 12, 255]
    case 3 => [-243, -248, 13, 255, -242, -247, 14, 255, -241, -246, 15, 255, -240, -245, 16, 255]
    case 4 => [-239, -508, 17, 255, -238, -507, 18, 255, -237, -506, 19, 255, -236, -505, 20, 255]
    case 5 => [-235, -504, 21, 255, -234, -503, 22, 255, -233, -502, 23, 255, -232, -501, 24, 255]
    case 6 => [-231, -764, 25, 255, -230, -763, 26, 255, -229, -762, 27, 255, -228, -761, 28, 255]
    case 7 => [-227, -760, 29, 255, -226, -759, 30, 255, -225, -758, 31, 255, -224, -757, 32, 255]
    case 8 => [-223, -1020, 33, 255, -222, -1019, 34, 255, -221, -1018, 35, 255, -220, -1017, 36, 255]
    case 9 => [-219, -1016, 37, 255, -218, -1015, 38, 255, -217, -1014, 39, 255, -216, -1013, 40, 255]
    case 10 => [-215, -1276, 41, 255, -214, -1275, 42, 255, -213, -1274, 43, 255, -212, -1273, 44, 255]
    case 11 => [-211, -1272, 45, 255, -210, -1271, 46, 255, -209, -1270, 47, 255, -208, -1269, 48, 255]
    case 12 => [-207, -1532, 49, 255, -206, -1531, 50, 255, -205, -1530, 51, 255, -204, -1529, 52, 255]
    case 13 => [-203, -1528, 53, 255, -202, -1527, 54, 255, -201, -1526, 55, 255, -200, -1525, 56, 255]
    case 14 => [-199, -1788, 57, 255, -198, -1787, 58, 255, -197, -1786, 59, 255, -196, -1785, 60, 255]
    case _ => [255, -1784, 61, 255, 255, -1783, 62, 255, 255, -1782, 63, 255, 255, -1781, 64, 255]
  }

  /**
   * What the entry of a tag stands for: its length less 256 times its offset, as far as the tag has
   * them. A literal counts as offset 1; a literal with extra bytes and a copy-4 have 255.
   */
  function Entry(tag: nat): (e: int)
  {
    if tag % 4 == 0 then if tag / 4 < 60 then tag / 4 + 1 - 256 else 255
    else if tag % 4 == 1 then 4 + tag / 4 % 8 - 256 * (tag / 32)
    else if tag % 4 == 2 then tag / 4 + 1
    else 255
  }

  /** The entries of row `r`, by the upper bits `r` of the tag, its two middle bits and its type. */
  function EntryRow(r: nat): (row: seq<int>)
    ensures |row| == 16
  {
    var lit, near, far := if r < 15 then 4 * r - 255 else 255, 4 + 4 * (r % 2) - 256 * (r / 2), 4 * r + 1;
    var step := if r < 15 then 1 else 0;
    [lit, near, far, 255, lit + step, near + 1, far + 1, 255,
     lit + 2 * step, near + 2, far + 2, 255, lit + 3 * step, near + 3, far + 3, 255]
  }

  lemma LengthRows0()
    ensures LengthMinusOffsetRow(0) == EntryRow(0)
    ensures LengthMinusOffsetRow(1) == EntryRow(1)
  {
  }

  lemma LengthRows1()
    ensures LengthMinusOffsetRow(2) == EntryRow(2)
    ensures LengthMinusOffsetRow(3) == EntryRow(3)
  {
  }

  lemma LengthRows2()
    ensures LengthMinusOffsetRow(4) == EntryRow(4)
    ensures LengthMinusOffsetRow(5) == EntryRow(5)
  {
  }

  lemma LengthRows3()
    ensures LengthMinusOffsetRow(6) == EntryRow(6)
    ensures LengthMinusOffsetRow(7) == EntryRow(7)
  {
  }

  lemma LengthRows4()
    ensures LengthMinusOffsetRow(8) == EntryRow(8)
    ensures LengthMinusOffsetRow(9) == EntryRow(9)
  {
  }

  lemma LengthRows5()
    ensures LengthMinusOffsetRow(10) == EntryRow(10)
    ensures LengthMinusOffsetRow(11) == EntryRow(11)
  {
  }

  lemma LengthRows6()
    ensures LengthMinusOffsetRow(12) == EntryRow(12)
    ensures LengthMinusOffsetRow(13) == EntryRow(13)
  {
  }

  lemma LengthRows7()
    ensures LengthMinusOffsetRow(14) == EntryRow(14)
    ensures LengthMinusOffsetRow(15) == EntryRow(15)
  {
  }

  /** Every row of the table, and so every entry, is what its tags stand for. */
  lemma LengthRows(r: nat)
    requires r < 16
    ensures LengthMinusOffsetRow(r) == EntryRow(r)
  {
    LengthRows0();
    LengthRows1();
    LengthRows2();
    LengthRows3();
    LengthRows4();
    LengthRows5();
    LengthRows6();
    LengthRows7();
    match r
    case 0 =>
    case 1 =>
    case 2 =>
    case 3 =>
    case 4 =>
    case 5 =>
    case 6 =>
    case 7 =>
    case 8 =>
    case 9 =>
    case 10 =>
    case 11 =>
    case 12 =>
    case 13 =>
    case 14 =>
    case _ =>
  }

  lemma EntryRowAt(r: nat, q: nat, k: nat)
    requires r < 16 && q < 4 && k < 4
    ensures EntryRow(r)[4 * q + k] == Entry(16 * r + 4 * q + k)
  {
    TagParts(r, q, k);
  }

  lemma TagParts(r: nat, q: nat, k: nat)
    requires q < 4 && k < 4
    ensures var tag := 16 * r + 4 * q + k;
            tag % 4 == k && tag / 4 == 4 * r + q && tag / 32 == r / 2 && tag / 4 % 8 == 4 * (r % 2) + q
  {
  }

  lemma TagSplit(tag: nat)
    ensures tag % 16 == 4 * (tag % 16 / 4) + tag % 4 && tag == 16 * (tag / 16) + 4 * (tag % 16 / 4) + tag % 4
  {
  }

  /** `kLengthMinusOffset[tag]`, for each of the 256 tags. */
  lemma TableEntry(tag: nat)
    requires tag < 256
    ensures LengthMinusOffsetRow(tag / 16)[tag % 16] == Entry(tag)
  {
    LengthRows(tag / 16);
    TagSplit(tag);
    EntryRowAt(tag / 16, tag % 16 / 4, tag % 4);
  }

  /** The low byte of the entry of a copy-1 or copy-2 is its length. */
  lemma EntryLength(tag: nat)
    requires tag < 256 && (tag % 4 == 1 || tag % 4 == 2)
    ensures tag % 4 == 1 ==> Entry(tag) % 256 == 4 + tag / 4 % 8
    ensures tag % 4 == 2 ==> Entry(tag) % 256 == tag / 4 + 1
  {
  }

  /** `kLengthMinusOffset[tag] & 0xFF` */
  method TableLength(tag: byte) returns (len: nat)
    requires tag % 4 == 1 || tag % 4 == 2
    ensures tag % 4 == 1 ==> len == 4 + tag / 4 % 8
    ensures tag % 4 == 2 ==> len == tag / 4 + 1
  {
    TableEntry(tag);
    EntryLength(tag);
    len := LengthMinusOffsetRow(tag / 16)[tag % 16] % 256;
  }

  // ---- one element ----

  /**
   * What one round of the decoder's loop must do, in terms of the reference decoder: consume the
   * element at the head of `s` and append its action, or fail exactly when the reference does.
   */
  ghost predicate Steps(s: seq<byte>, out: seq<byte>, limit: nat, ok: bool, n: nat, out': seq<byte>)
    requires s != []
  {
    var p := Parse(s);
    if ok then
      && p.Some? && n == p.value.1
      && Applies(out, p.value.0) && |out| + Size(p.value.0) <= limit
      && out' == Apply(out, p.value.0)
    else
      p.None? || !Applies(out, p.value.0) || |out| + Size(p.value.0) > limit
  }

  lemma StepsRun(s: seq<byte>, out: seq<byte>, limit: nat, ok: bool, n: nat, out': seq<byte>)
    requires s != [] && |out| < limit
    requires Steps(s, out, limit, ok, n, out')
    ensures ok ==> n <= |s| && Run(s, out, limit) == Run(s[n..], out', limit)
    ensures !ok ==> Run(s, out, limit).None?
  {
  }

  /** The length of the literal at `ip` and where its bytes start. */
  method LiteralLength(src: seq<byte>, ip: nat) returns (ok: bool, len: nat, start: nat)
    requires ip < |src| && src[ip] % 4 == 0
    ensures ip < start <= |src|
    ensures ok ==> Parse(src[ip..]) == (if start + len > |src| then None
                                        else Some((Bytes(src[start..start + len]), start + len - ip)))
    ensures !ok ==> Parse(src[ip..]).None?
  {
    ghost var s := src[ip..];
    ok, len, start := true, src[ip] / 4 + 1, ip + 1;
    if len >= 61 {
      var extra := len - 60;
      if start + extra > |src| {
        return false, 0, start;
      }
      assert s[1..1 + extra] == src[start..start + extra];
      len := (LE(src[start..start + extra]) + 1) % TWO32;
      start := start + extra;
    }
    if start + len <= |src| {
      assert s[start - ip..start - ip + len] == src[start..start + len];
    }
  }

  method LiteralStep(src: seq<byte>, ip: nat, dst: array<byte>, op: nat, opEnd: nat)
    returns (ok: bool, ip': nat, op': nat)
    requires ip < |src| && op < opEnd <= dst.Length && src[ip] % 4 == 0
    modifies dst
    ensures ip < ip' <= |src| && op <= op' <= opEnd
    ensures Steps(src[ip..], old(dst[..op]), opEnd, ok, ip' - ip, dst[..op'])
    ensures forall k :: opEnd <= k < dst.Length ==> dst[k] == old(dst[k])
  {
    var len;
    ok, len, ip' := LiteralLength(src, ip);
    op' := op;
    if !ok {
      return;
    }
    if len <= 16 && ip' + 16 <= |src| && op + 16 <= opEnd {
      Put(dst, op, src[ip'..ip' + 16]);
    } else if ip' + len > |src| || op + len > opEnd {
      ok := false;
      return;
    } else {
      Put(dst, op, src[ip'..ip' + len]);
    }
    assert dst[..op + len] == old(dst[..op]) + src[ip'..ip' + len];
    ip', op' := ip' + len, op + len;
  }

  /** Copies one match with the widest moves that the room left in the output allows. */
  method CopyBack(build: Build, dst: array<byte>, offset: nat, len: nat, op: nat, opEnd: nat)
    requires 0 < offset <= op && 1 <= len <= 64 && op + len <= opEnd <= dst.Length
    modifies dst
    ensures dst[..op + len] == CopyMatch(old(dst[..op]), offset, len)
    ensures forall k :: opEnd <= k < dst.Length ==> dst[k] == old(dst[k])
  {
    var limitMinSlop := if opEnd >= 64 then opEnd - 63 else 0;
    var match' := op - offset;
    if offset >= 16 && op + len <= limitMinSlop {
      CopySixteens(dst, match', op, op + len);
    } else if len <= 64 && op + len <= limitMinSlop && offset >= len {
      Move(dst, match', op, 64);
    } else {
      IncrementalCopy(build, dst, match', op, op + len, opEnd);
      return;
    }
    assert dst[..op + len][..op] == old(dst[..op]);
    RepeatsIsCopyMatch(dst[..op + len], old(dst[..op]), offset);
  }

  method CopyStep(build: Build, src: seq<byte>, ip: nat, dst: array<byte>, op: nat, opEnd: nat)
    returns (ok: bool, ip': nat, op': nat)
    requires ip < |src| && op < opEnd <= dst.Length && src[ip] % 4 != 0
    modifies dst
    ensures ip < ip' <= |src| && op <= op' <= opEnd
    ensures Steps(src[ip..], old(dst[..op]), opEnd, ok, ip' - ip, dst[..op'])
    ensures forall k :: opEnd <= k < dst.Length ==> dst[k] == old(dst[k])
  {
    var tag := src[ip];
    ghost var s := src[ip..];
    ok, ip', op' := false, ip + 1, op;
    var len: nat, offset: nat;
    if tag % 4 == 1 {
      if ip' >= |src| {
        return;
      }
      len := TableLength(tag);
      offset := 256 * (tag as int / 32) + src[ip'];
      ip' := ip' + 1;
    } else if tag % 4 == 2 {
      if ip' + 2 > |src| {
        return;
      }
      len := TableLength(tag);
      offset := LE(src[ip'..ip' + 2]);
      assert s[1..3] == src[ip'..ip' + 2];
      ip' := ip' + 2;
    } else {
      if ip' + 4 > |src| {
        return;
      }
      len := tag / 4 % 64 + 1;
      offset := LE(src[ip'..ip' + 4]);
      assert s[1..5] == src[ip'..ip' + 4];
      ip' := ip' + 4;
    }
    assert Parse(s) == Some((Back(offset, len), ip' - ip));
    if offset == 0 || offset > op || op + len > opEnd {
      return;
    }
    CopyBack(build, dst, offset, len, op, opEnd);
    ok, op' := true, op + len;
  }

  // ---- the decoder ----

  /** The length that the header of `src` declares, or 0. */
  function DeclaredLength(src: seq<byte>): (n: nat)
  {
    if ReadVarint(src).Some? then ReadVarint(src).value.0 else 0
  }

  /**
   * On every input, well formed or not, and in both builds, the decoder agrees with the reference:
   * it succeeds exactly when the reference does, with the same bytes, and never touches the buffer
   * past the declared length.
   */
  method Decompress(build: Build, src: seq<byte>, dst: array<byte>) returns (status: Status, size: nat)
    modifies dst
    ensures status == (if Decode(src, dst.Length).Some? then Ok else InvalidCompressedData)
    ensures status == Ok ==> size <= dst.Length && Decode(src, dst.Length) == Some(dst[..size])
    ensures forall k :: DeclaredLength(src) <= k < dst.Length ==> dst[k] == old(dst[k])
  {
    size := 0;
    if src == [] {
      assert dst[..0] == [];
      return Ok, 0;
    }
    var header := ReadVarint(src);
    if header.None? {
      return InvalidCompressedData, 0;
    }
    var (len, ip) := header.value;
    if len > dst.Length {
      return InvalidCompressedData, 0;
    }
    var op := 0;
    assert dst[..0] == [];
    while ip < |src| && op < len
      invariant ip <= |src| && op <= len
      invariant Decode(src, dst.Length) == Run(src[ip..], dst[..op], len)
      invariant forall k :: len <= k < dst.Length ==> dst[k] == old(dst[k])
      decreases |src| - ip
    {
      ghost var out := dst[..op];
      var ok, ip', op';
      if src[ip] % 4 == 0 {
        ok, ip', op' := LiteralStep(src, ip, dst, op, len);
      } else {
        ok, ip', op' := CopyStep(build, src, ip, dst, op, len);
      }
      StepsRun(src[ip..], out, len, ok, ip' - ip, dst[..op']);
      if !ok {
        return InvalidCompressedData, 0;
      }
      assert src[ip..][ip' - ip..] == src[ip'..];
      ip, op := ip', op';
    }
    if op != len || ip != |src| {
      return InvalidCompressedData, 0;
    }
    return Ok, len;
  }
}
