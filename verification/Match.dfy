/** Back references: what copying a match means, and when a wide copy has the same meaning. */
module Match {
  import opened Bytes

  /**
   * Byte-at-a-time copy of a match: each of `len` steps appends the byte found `offset` back,
   * so that a match longer than its offset repeats itself.
   */
  function CopyMatch(out: seq<byte>, offset: nat, len: nat): (r: seq<byte>)
    requires 0 < offset <= |out|
    decreases len
  {
    if len == 0 then out
    else CopyMatch(out + [out[|out| - offset]], offset, len - 1)
  }

  /** Positions `[lo, hi)` of `s` repeat what stands `offset` before them. */
  ghost predicate Repeats(s: seq<byte>, offset: nat, lo: nat, hi: nat)
    requires offset <= lo && hi <= |s|
  {
    forall k :: lo <= k < hi ==> s[k] == s[k - offset]
  }

  /** A buffer that extends `out` and repeats at the offset is the byte-at-a-time copy. */
  lemma {:induction false} RepeatsIsCopyMatch(s: seq<byte>, out: seq<byte>, offset: nat)
    requires 0 < offset <= |out| <= |s|
    requires s[..|out|] == out
    requires Repeats(s, offset, |out|, |s|)
    ensures s == CopyMatch(out, offset, |s| - |out|)
    decreases |s| - |out|
  {
    if |out| == |s| {
      assert s[..|out|] == s;
    } else {
      var out' := out + [out[|out| - offset]];
      assert s[..|out'|] == out';
      RepeatsIsCopyMatch(s, out', offset);
    }
  }

  lemma {:induction false} CopyMatchRepeats(out: seq<byte>, offset: nat, len: nat)
    requires 0 < offset <= |out|
    ensures |CopyMatch(out, offset, len)| == |out| + len
    ensures CopyMatch(out, offset, len)[..|out|] == out
    ensures Repeats(CopyMatch(out, offset, len), offset, |out|, |out| + len)
    decreases len
  {
    if len == 0 {
    } else {
      var out' := out + [out[|out| - offset]];
      var r := CopyMatch(out', offset, len - 1);
      CopyMatchRepeats(out', offset, len - 1);
      assert r[..|out|] == r[..|out'|][..|out|] == out;
      assert r[|out|] == r[..|out'|][|out|];
      assert r[|out| - offset] == r[..|out'|][|out| - offset];
    }
  }

  /** A match may be copied in pieces. */
  lemma {:induction false} CopyMatchSplit(out: seq<byte>, offset: nat, m: nat, n: nat)
    requires 0 < offset <= |out|
    ensures offset <= |CopyMatch(out, offset, m)|
    ensures CopyMatch(CopyMatch(out, offset, m), offset, n) == CopyMatch(out, offset, m + n)
    decreases m
  {
    if m > 0 {
      CopyMatchSplit(out + [out[|out| - offset]], offset, m - 1, n);
    } else {
      CopyMatchRepeats(out, offset, 0);
    }
  }

  /** Repeating at an offset is repeating at each of its multiples, once the buffer is deep enough. */
  lemma {:induction false} RepeatsMultiple(s: seq<byte>, offset: nat, lo: nat, hi: nat, m: nat, k: nat)
    requires 0 < offset <= lo && hi <= |s|
    requires Repeats(s, offset, lo, hi)
    requires lo <= k < hi && m >= 1 && k - (m - 1) * offset >= lo
    ensures k - m * offset >= 0
    ensures s[k] == s[k - m * offset]
    decreases m
  {
    if m == 1 {
      assert s[k] == s[k - offset];
    } else {
      assert (m - 1) * offset == (m - 2) * offset + offset;
      assert (m - 1) * offset >= 0 && (m - 2) * offset >= 0;
      RepeatsMultiple(s, offset, lo, hi, m - 1, k);
      var j := k - (m - 1) * offset;
      assert s[j] == s[j - offset];
      assert j - offset == k - m * offset;
    }
  }

  /**
   * The overlap trick: bytes copied from `m` periods back extend a buffer that already repeats
   * with one period, because the source range itself lies in the repeating part.
   */
  lemma ExtendRepeats(s: seq<byte>, offset: nat, m: nat, lo: nat, mid: nat, hi: nat)
    requires 0 < offset <= lo <= mid <= hi <= |s| && m >= 1
    requires lo - offset + m * offset <= mid
    requires Repeats(s, offset, lo, mid)
    requires forall k :: mid <= k < hi ==> s[k] == s[k - m * offset]
    ensures Repeats(s, offset, lo, hi)
  {
    ExtendFrom(s, offset, m, m * offset, lo, mid, hi);
  }

  lemma {:induction false} ExtendFrom(s: seq<byte>, offset: nat, m: nat, far: nat, lo: nat, mid: nat, hi: nat)
    requires 0 < offset <= lo <= mid <= hi <= |s| && m >= 1 && far == m * offset
    requires lo - offset + far <= mid
    requires Repeats(s, offset, lo, mid)
    requires forall k :: mid <= k < hi ==> s[k] == s[k - far]
    ensures Repeats(s, offset, lo, hi)
    decreases hi
  {
    if mid == hi {
    } else {
      ExtendFrom(s, offset, m, far, lo, mid, hi - 1);
      if m > 1 {
        LessOne(m, offset, far);
        RepeatsMultiple(s, offset, lo, hi - 1, m - 1, hi - 1 - offset);
      }
    }
  }

  lemma LessOne(m: nat, offset: nat, far: nat)
    requires m > 1 && far == m * offset
    ensures (m - 1) * offset == far - offset && (m - 2) * offset == far - 2 * offset
  {
  }

  /**
   * What an in-place copy of a match must achieve: `[op, limit)` repeats at the offset, nothing
   * below `op` and nothing at or past `wall` has moved.
   */
  twostate predicate Filled(a: array<byte>, offset: nat, op: nat, limit: nat, wall: nat)
    requires 0 < offset <= op <= limit <= a.Length
    reads a
  {
    && (forall k :: op <= k < limit ==> a[k] == a[k - offset])
    && (forall k :: 0 <= k < op || wall <= k < a.Length ==> a[k] == old(a[k]))
  }
}
