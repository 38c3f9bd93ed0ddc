/** The wild copies of the LZ4 decoder and its overlap trick, against the byte-at-a-time copy. */
module Lz4Copy {
  import opened Bytes
  import opened Match
  import opened Lz4Format

  // ---- copies that overshoot ----

  /** `LZ4_wildCopy8` inside the output: blocks of 8 until `e` is reached, at a distance of at least 8. */
  method WildCopy8(a: array<byte>, d: nat, s: nat, e: nat)
    requires s + 8 <= d && d + 8 <= a.Length && e + 7 <= a.Length
    modifies a
    ensures forall k :: d <= k < d + 8 || d <= k < e ==> a[k] == a[k - (d - s)]
    ensures forall k :: 0 <= k < d || (d + 8 <= k < a.Length && e + 7 <= k) ==> a[k] == old(a[k])
  {
    CopyApart(a, s, d, 8);
    var n := 8;
    while d + n < e
      invariant 8 <= n && (d + n <= e + 7 || n == 8)
      invariant forall k :: d <= k < d + n ==> a[k] == a[k - (d - s)]
      invariant forall k :: 0 <= k < d || d + n <= k < a.Length ==> a[k] == old(a[k])
    {
      label Step:
      CopyApart(a, s + n, d + n, 8);
      forall k | d + n <= k < d + n + 8 ensures a[k] == a[k - (d - s)] {
        assert a[k] == old@Step(a[s + n + k - (d + n)]);
      }
      n := n + 8;
    }
  }

  /** `LZ4_wildCopy32` inside the output: two moves of 16 at a time, at a distance of at least 16. */
  method WildCopy32(a: array<byte>, d: nat, s: nat, e: nat)
    requires s + 16 <= d && d + 32 <= a.Length && e + 31 <= a.Length
    modifies a
    ensures forall k :: d <= k < e ==> a[k] == a[k - (d - s)]
    ensures forall k :: 0 <= k < d || (d + 32 <= k < a.Length && e + 31 <= k) ==> a[k] == old(a[k])
  {
    var n := 0;
    while true
      invariant d + n < e || n == 0
      invariant forall k :: d <= k < d + n ==> a[k] == a[k - (d - s)]
      invariant forall k :: 0 <= k < d || d + n <= k < a.Length ==> a[k] == old(a[k])
      decreases e - n
    {
      label Step:
      CopyApart(a, s + n, d + n, 16);
      label Half:
      CopyApart(a, s + n + 16, d + n + 16, 16);
      forall k | d + n <= k < d + n + 32 ensures a[k] == a[k - (d - s)] {
        if k < d + n + 16 {
          assert old@Half(a[k]) == old@Step(a[s + n + k - (d + n)]);
        } else {
          assert a[k] == old@Half(a[s + n + 16 + k - (d + n + 16)]);
        }
      }
      n := n + 32;
      if d + n >= e {
        return;
      }
    }
  }

  /** `LZ4_wildCopy8` and `LZ4_wildCopy32` from the input: blocks of `w` bytes until `len` are copied. */
  method WildCopyIn(a: array<byte>, d: nat, src: seq<byte>, p: nat, len: nat, w: nat)
    requires w >= 1
    requires d + w <= a.Length && d + len + w - 1 <= a.Length
    requires p + w <= |src| && p + len + w - 1 <= |src|
    modifies a
    ensures a[..d + len] == old(a[..d]) + src[p..p + len]
    ensures forall k :: d + w <= k < a.Length && d + len + w - 1 <= k ==> a[k] == old(a[k])
  {
    var n := 0;
    while true
      invariant n < len || n == 0
      invariant forall k :: d <= k < d + n ==> a[k] == src[p + (k - d)]
      invariant forall k :: 0 <= k < d || d + n <= k < a.Length ==> a[k] == old(a[k])
      decreases len - n
    {
      Put(a, d + n, src[p + n..p + n + w]);
      n := n + w;
      if n >= len {
        return;
      }
    }
  }

  // ---- laying out a match ----

  /** `[lo, hi)` continues `s[..lo]` as a match at `offset` does. */
  ghost predicate Laid(s: seq<byte>, offset: nat, lo: nat, hi: nat)
  {
    && offset <= lo && hi <= |s|
    && forall k :: lo <= k < hi ==> s[k] == if offset == 0 then 0 else s[k - offset]
  }

  lemma LaidIsExtend(s: seq<byte>, out: seq<byte>, offset: nat)
    requires |out| <= |s| && s[..|out|] == out && Laid(s, offset, |out|, |s|)
    ensures s == Extend(out, offset, |s| - |out|)
  {
    if offset > 0 {
      RepeatsIsCopyMatch(s, out, offset);
    }
  }

  /** A distance at which copying continues a match laid up to `mid`. */
  ghost predicate Continues(offset: nat, lo: nat, mid: nat, dist: nat)
  {
    if offset == 0 then 1 <= dist <= mid - lo
    else exists m: nat :: m >= 1 && dist == m * offset && lo - offset + dist <= mid
  }

  /** Copying on from such a distance lays out the rest of the match. */
  lemma LaidFurther(s: seq<byte>, offset: nat, lo: nat, mid: nat, hi: nat, dist: nat)
    requires lo <= mid <= hi <= |s| && Laid(s, offset, lo, mid) && Continues(offset, lo, mid, dist)
    requires dist <= mid
    requires forall k :: mid <= k < hi ==> s[k] == s[k - dist]
    ensures Laid(s, offset, lo, hi)
  {
    if offset == 0 {
      var k := mid;
      while k < hi
        invariant mid <= k <= hi
        invariant forall j :: lo <= j < k ==> s[j] == 0
      {
        assert s[k] == s[k - dist];
        k := k + 1;
      }
    } else {
      var m: nat :| m >= 1 && dist == m * offset && lo - offset + dist <= mid;
      ExtendRepeats(s, offset, m, lo, mid, hi);
    }
  }

  lemma SameOffsetContinues(offset: nat, lo: nat, mid: nat)
    requires 0 < offset <= lo <= mid
    ensures Continues(offset, lo, mid, offset)
  {
    assert offset == 1 * offset;
  }

  // ---- the overlap trick ----

  const INC32TABLE: seq<nat> := [0, 1, 2, 1, 0, 4, 4, 4]
  const DEC64TABLE: seq<int> := [0, 0, 0, -1, -4, 1, 2, 3]

  /** Four bytes one by one, over a zeroed word so that an offset of 0 reads zeros. */
  method FirstFour(a: array<byte>, op: nat, offset: nat)
    requires offset <= op && op + 4 <= a.Length
    modifies a
    ensures Laid(a[..], offset, op, op + 4)
    ensures forall k :: 0 <= k < op || op + 4 <= k < a.Length ==> a[k] == old(a[k])
  {
    var m := op - offset;
    a[op], a[op + 1], a[op + 2], a[op + 3] := 0, 0, 0, 0;
    a[op] := a[m];
    a[op + 1] := a[m + 1];
    a[op + 2] := a[m + 2];
    a[op + 3] := a[m + 3];
  }

  /** Where `inc32table` puts the source of the next four bytes. */
  lemma NextFour(s: seq<byte>, offset: nat, op: nat)
    requires offset < 8 && offset <= op && op + 8 <= |s| && Laid(s, offset, op, op + 4)
    requires forall k :: op + 4 <= k < op + 8 ==> s[k] == s[k - 4 - offset + INC32TABLE[offset]]
    ensures Laid(s, offset, op, op + 8)
  {
    assert s[op + 4] == s[op - offset + INC32TABLE[offset]];
    assert s[op + 5] == s[op + 1 - offset + INC32TABLE[offset]];
    assert s[op + 6] == s[op + 2 - offset + INC32TABLE[offset]];
    assert s[op + 7] == s[op + 3 - offset + INC32TABLE[offset]];
    forall k | op + 4 <= k < op + 8 ensures s[k] == if offset == 0 then 0 else s[k - offset] {
      if offset == 0 {
      } else if offset == 1 {
      } else if offset == 2 {
      } else if offset == 3 {
      } else if offset == 4 {
      } else {
      }
    }
  }

  /**
   * The first 8 bytes of a match at an offset below 8. The tables place the source so that it lies
   * at least 8 bytes back, by a multiple of the offset, and wild copies may go on from there.
   */
  method OverlapPrologue(a: array<byte>, op: nat, offset: nat) returns (source: nat)
    requires offset < 8 && offset <= op && op + 8 <= a.Length
    modifies a
    ensures source <= op
    ensures Laid(a[..], offset, op, op + 8)
    ensures Continues(offset, op, op + 8, op + 8 - source)
    ensures forall k :: 0 <= k < op || op + 8 <= k < a.Length ==> a[k] == old(a[k])
  {
    FirstFour(a, op, offset);
    var m := op - offset + INC32TABLE[offset];
    CopyApart(a, m, op + 4, 4);
    NextFour(a[..], offset, op);
    PrologueDistance(offset, op);
    source := m - DEC64TABLE[offset];
  }

  /** The distance the tables leave: 8, 8, 9, 8, 10, 12 and 14 for offsets 1 to 7. */
  lemma PrologueDistance(offset: nat, op: nat)
    requires offset < 8 && offset <= op
    ensures var dist := offset + 8 - INC32TABLE[offset] + DEC64TABLE[offset];
            8 <= dist <= op + 8 && Continues(offset, op, op + 8, dist)
  {
    var dist := offset + 8 - INC32TABLE[offset] + DEC64TABLE[offset];
    var m := if offset == 0 then 1 else if offset == 1 then 8 else if offset == 2 then 4 else if offset == 3 then 3
      else 2;
    if offset > 0 {
      assert dist == m * offset;
    }
  }

  // ---- whole matches ----

  /** `LZ4_memcpy_using_offset_base`: any offset, with at least 12 bytes to spare past `e`. */
  method CopyUsingOffsetBase(a: array<byte>, op: nat, offset: nat, e: nat)
    requires offset <= op && op + MINMATCH <= e && e + 12 <= a.Length
    modifies a
    ensures Laid(a[..], offset, op, e)
    ensures forall k :: 0 <= k < op ==> a[k] == old(a[k])
  {
    var source := FirstEight(a, op, offset);
    label First:
    WildCopy8(a, op + 8, source, e);
    assert forall k :: op <= k < op + 8 ==> a[k] == old@First(a[k]);
    if e > op + 8 {
      LaidFurther(a[..], offset, op, op + 8, e, op + 8 - source);
    }
  }

  /** The first 8 bytes of a match, and where the copy goes on from. */
  method FirstEight(a: array<byte>, op: nat, offset: nat) returns (source: nat)
    requires offset <= op && op + 8 <= a.Length
    modifies a
    ensures source <= op
    ensures Laid(a[..], offset, op, op + 8)
    ensures Continues(offset, op, op + 8, op + 8 - source)
    ensures forall k :: 0 <= k < op || op + 8 <= k < a.Length ==> a[k] == old(a[k])
  {
    if offset < 8 {
      source := OverlapPrologue(a, op, offset);
    } else {
      CopyApart(a, op - offset, op, 8);
      SameOffsetContinues(offset, op, op + 8);
      source := op - offset + 8;
    }
  }

  /** The 8-byte pattern that offsets 1, 2 and 4 repeat. */
  function Pattern(a: seq<byte>, op: nat, offset: nat): (v: seq<byte>)
    requires offset in {1, 2, 4} && offset <= op <= |a|
    ensures |v| == 8
  {
    if offset == 1 then seq(8, _ => a[op - 1])
    else if offset == 2 then var h := a[op - 2..op] + a[op - 2..op]; h + h
    else a[op - 4..op] + a[op - 4..op]
  }

  lemma PatternLaid(s: seq<byte>, before: seq<byte>, op: nat, offset: nat)
    requires offset in {1, 2, 4} && offset <= op <= |before| && op + 8 <= |s|
    requires s[..op] == before[..op] && s[op..op + 8] == Pattern(before, op, offset)
    ensures Laid(s, offset, op, op + 8) && Continues(offset, op, op + 8, 8)
  {
    var v := Pattern(before, op, offset);
    assert forall i :: offset <= i < 8 ==> v[i] == v[i - offset];
    assert forall i :: 0 <= i < offset ==> v[i] == before[op - offset + i];
    forall k | op <= k < op + 8 ensures s[k] == s[k - offset] {
      assert s[k] == s[op..op + 8][k - op] == v[k - op];
      if k >= op + offset {
        assert s[k - offset] == s[op..op + 8][k - offset - op];
      } else {
        assert s[k - offset] == s[..op][k - offset] == before[..op][k - offset];
      }
    }
    var m := if offset == 1 then 8 else if offset == 2 then 4 else 2;
    assert 8 == m * offset;
  }

  /** The same 8 bytes once more. */
  method PutAgain(a: array<byte>, op: nat, offset: nat, q: nat, v: seq<byte>)
    requires offset in {1, 2, 4} && offset <= op && op + 8 <= q && q + 8 <= a.Length
    requires |v| == 8 && a[q - 8..q] == v && Laid(a[..], offset, op, q)
    modifies a
    ensures a[q..q + 8] == v && Laid(a[..], offset, op, q + 8)
    ensures forall k :: 0 <= k < op ==> a[k] == old(a[k])
  {
    ghost var s := a[q - 8..q];
    Put(a, q, v);
    forall k | q <= k < q + 8 ensures a[k] == a[k - 8] {
      assert a[k] == v[k - q] == s[k - q];
    }
    assert forall k :: 0 <= k < q ==> a[k] == old(a[k]);
    assert Continues(offset, op, q, 8) by {
      ghost var m := if offset == 1 then 8 else if offset == 2 then 4 else 2;
      assert 8 == m * offset;
    }
    LaidFurther(a[..], offset, op, q, q + 8, 8);
  }

  /** Offsets 1, 2 and 4: the same 8 bytes stored over and over. */
  method CopyPattern(a: array<byte>, op: nat, offset: nat, e: nat)
    requires offset in {1, 2, 4} && offset <= op && op + MINMATCH <= e && e + 12 <= a.Length
    modifies a
    ensures Laid(a[..], offset, op, e)
    ensures forall k :: 0 <= k < op ==> a[k] == old(a[k])
  {
    ghost var before := a[..];
    var v := Pattern(a[..], op, offset);
    Put(a, op, v);
    assert a[..][op..op + 8] == v && a[..][..op] == before[..op];
    PatternLaid(a[..], before, op, offset);
    var n := 8;
    while op + n < e
      invariant 8 <= n && op + n <= e + 8
      invariant a[op + n - 8..op + n] == v
      invariant Laid(a[..], offset, op, op + n)
      invariant forall k :: 0 <= k < op ==> a[k] == old(a[k])
    {
      PutAgain(a, op, offset, op + n, v);
      n := n + 8;
    }
  }

  /** `LZ4_memcpy_using_offset` */
  method CopyUsingOffset(a: array<byte>, op: nat, offset: nat, e: nat)
    requires offset <= op && op + MINMATCH <= e && e + 12 <= a.Length
    modifies a
    ensures a[..e] == Extend(old(a[..op]), offset, e - op)
  {
    if offset in {1, 2, 4} {
      CopyPattern(a, op, offset, e);
    } else {
      CopyUsingOffsetBase(a, op, offset, e);
    }
    assert a[..e][..op] == old(a[..op]);
    LaidIsExtend(a[..e], old(a[..op]), offset);
  }

  /** The 18-byte shortcut: matches of 4 to 18 bytes at an offset of at least 8. */
  method CopyEighteen(a: array<byte>, op: nat, offset: nat, len: nat)
    requires 8 <= offset <= op && len <= 18 && op + 18 <= a.Length
    modifies a
    ensures a[..op + len] == Extend(old(a[..op]), offset, len)
  {
    CopyApart(a, op - offset, op, 8);
    CopyApart(a, op - offset + 8, op + 8, 8);
    CopyApart(a, op - offset + 16, op + 16, 2);
    assert a[..op + len][..op] == old(a[..op]);
    LaidIsExtend(a[..op + len], old(a[..op]), offset);
  }

  /** `LZ4_wildCopy32` of a match at an offset of at least 16. */
  method CopyFar(a: array<byte>, op: nat, offset: nat, e: nat)
    requires 16 <= offset <= op <= e && e + 32 <= a.Length
    modifies a
    ensures a[..e] == Extend(old(a[..op]), offset, e - op)
  {
    WildCopy32(a, op, op - offset, e);
    assert a[..e][..op] == old(a[..op]);
    LaidIsExtend(a[..e], old(a[..op]), offset);
  }

  /**
   * The match copy of the safe loop: near the end of the buffer it first fills up to the last 7
   * bytes and then goes byte by byte; it fails exactly when the last 5 bytes would not be literals.
   */
  method CopySafe(a: array<byte>, op: nat, offset: nat, len: nat) returns (ok: bool)
    requires offset <= op && len >= MINMATCH && op + MFLIMIT <= a.Length
    modifies a
    ensures ok <==> op + len + 5 <= a.Length
    ensures ok ==> a[..op + len] == Extend(old(a[..op]), offset, len)
  {
    var source := FirstEight(a, op, offset);
    ok := CopySafeRest(a, op, offset, source, op + len);
    if ok {
      assert a[..op + len][..op] == old(a[..op]);
      LaidIsExtend(a[..op + len], old(a[..op]), offset);
    }
  }

  method CopySafeRest(a: array<byte>, op: nat, offset: nat, source: nat, cpy: nat) returns (ok: bool)
    requires offset <= op && op + MINMATCH <= cpy && source <= op && op + MFLIMIT <= a.Length
    requires Laid(a[..], offset, op, op + 8) && Continues(offset, op, op + 8, op + 8 - source)
    modifies a
    ensures ok <==> cpy + LASTLITERALS <= a.Length
    ensures ok ==> Laid(a[..], offset, op, cpy)
    ensures forall k :: 0 <= k < op ==> a[k] == old(a[k])
  {
    if cpy + 12 > a.Length {
      if cpy + LASTLITERALS > a.Length {
        return false;
      }
      CopyTail(a, op + 8, source, cpy);
    } else {
      CopyOn(a, op + 8, source, cpy);
    }
    assert Laid(a[..], offset, op, op + 8);
    if cpy > op + 8 {
      LaidFurther(a[..], offset, op, op + 8, cpy, op + 8 - source);
    }
    return true;
  }

  /** Far from the end: 8 bytes, and 8-byte blocks if more are wanted. */
  method CopyOn(a: array<byte>, o: nat, source: nat, cpy: nat)
    requires source + 8 <= o <= cpy + 4 && cpy + 12 <= a.Length
    modifies a
    ensures forall k :: o <= k < cpy ==> a[k] == a[k - (o - source)]
    ensures forall k :: 0 <= k < o ==> a[k] == old(a[k])
  {
    CopyApart(a, source, o, 8);
    if cpy - o > 8 {
      WildCopy8(a, o + 8, source + 8, cpy);
    }
  }

  /** Within 12 bytes of the end: 8-byte blocks up to the last 7 bytes, then single bytes. */
  method CopyTail(a: array<byte>, o: nat, source: nat, cpy: nat)
    requires source + 8 <= o && cpy + LASTLITERALS <= a.Length < cpy + 12
    modifies a
    ensures forall k :: o <= k < cpy ==> a[k] == a[k - (o - source)]
    ensures forall k :: 0 <= k < o ==> k < a.Length ==> a[k] == old(a[k])
  {
    var p, s := o, source;
    var copyLimit := a.Length - 7;
    if p < copyLimit {
      WildCopy8(a, p, s, copyLimit);
      s := s + (copyLimit - p);
      p := copyLimit;
    }
    while p < cpy
      invariant o <= p && p - s == o - source
      invariant forall k :: o <= k < cpy && k < p ==> a[k] == a[k - (o - source)]
      invariant forall k :: 0 <= k < o ==> k < a.Length ==> a[k] == old(a[k])
    {
      a[p] := a[s];
      p, s := p + 1, s + 1;
    }
  }
}
