/** The overlapping copies of the Snappy decoder, each against the byte-at-a-time copy. */
module SnappyCopy {
  import opened Bytes
  import opened Match

  /** Which build of `incremental_copy`: with vector shuffles, or the portable one. */
  datatype Build = Scalar | Shuffle

  // ---- the byte-at-a-time form ----

  method IncrementalCopySlow(a: array<byte>, src: nat, op: nat, opLimit: nat)
    requires src < op <= a.Length && opLimit <= a.Length
    modifies a
    ensures forall k :: op <= k < opLimit ==> a[k] == a[k - (op - src)]
    ensures forall k :: 0 <= k < op || opLimit <= k < a.Length ==> a[k] == old(a[k])
  {
    var s, o := src, op;
    while o < opLimit
      invariant op <= o && o - s == op - src
      invariant o <= opLimit || o == op
      invariant forall k :: op <= k < o ==> a[k] == a[k - (op - src)]
      invariant forall k :: 0 <= k < op || o <= k < a.Length ==> a[k] == old(a[k])
    {
      a[o] := a[s];
      s, o := s + 1, o + 1;
    }
  }

  // ---- patterns shorter than 16 bytes, without vector shuffles ----

  /** Doubles the pattern until it spans 8 bytes; `src` stays put and `op` moves up. */
  method DoublePattern(a: array<byte>, src: nat, op: nat, bufLimit: nat) returns (o: nat, ghost m: nat)
    requires src < op && op + 11 <= bufLimit <= a.Length
    modifies a
    ensures m >= 1 && o - src == m * (op - src) && o - src >= 8
    ensures op <= o <= op + 11
    ensures Filled(a, op - src, op, o, bufLimit)
  {
    ghost var p := op - src;
    var size := op - src;
    o, m := op, 1;
    while size < 8
      invariant size == o - src == m * p
      invariant m == 1 || m == 2 || m == 4 || m == 8
      invariant op <= o <= op + 11
      invariant Filled(a, p, op, o, bufLimit)
    {
      label Step:
      assert size - p <= 3;
      Move(a, src, o, 8);
      forall k | o <= k < o + size ensures a[k] == a[k - m * p] {
        assert a[k] == old@Step(a[src + k - o]);
      }
      ExtendRepeats(a[..], p, m, op, o, o + size);
      o, size, m := o + size, size * 2, m * 2;
      assert forall k :: op <= k < o ==> a[..][k] == a[k];
    }
  }

  /** Blocks of 8 bytes, then single bytes, at a distance of at least 8. */
  method CopyEights(a: array<byte>, src: nat, op: nat, opLimit: nat, bufLimit: nat)
    requires src + 8 <= op <= opLimit <= bufLimit <= a.Length
    modifies a
    ensures forall k :: op <= k < opLimit ==> a[k] == a[k - (op - src)]
    ensures forall k :: 0 <= k < op || opLimit <= k < a.Length ==> a[k] == old(a[k])
  {
    var s, o := src, op;
    while o + 8 <= opLimit && o + 8 <= bufLimit
      invariant op <= o <= opLimit && o - s == op - src
      invariant forall k :: op <= k < o ==> a[k] == a[k - (op - src)]
      invariant forall k :: 0 <= k < op || o <= k < a.Length ==> a[k] == old(a[k])
    {
      label Step:
      Move(a, s, o, 8);
      forall k | o <= k < o + 8 ensures a[k] == a[k - (op - src)] {
        assert a[k] == old@Step(a[s + k - o]);
      }
      s, o := s + 8, o + 8;
    }
    IncrementalCopySlow(a, s, o, opLimit);
  }

  method ShortPatternScalar(a: array<byte>, src: nat, op: nat, opLimit: nat, bufLimit: nat)
    requires src < op <= opLimit <= bufLimit <= a.Length
    modifies a
    ensures Filled(a, op - src, op, opLimit, bufLimit)
  {
    if op + 11 <= bufLimit {
      var o, m := DoublePattern(a, src, op, bufLimit);
      if o >= opLimit {
        return;
      }
      label Doubled:
      CopyEights(a, src, o, opLimit, bufLimit);
      assert forall k :: op <= k < o ==> a[k] == old@Doubled(a[k]);
      ExtendRepeats(a[..], op - src, m, op, o, opLimit);
      assert forall k :: op <= k < opLimit ==> a[..][k] == a[k];
    } else {
      IncrementalCopySlow(a, src, op, opLimit);
    }
  }

  // ---- patterns shorter than 16 bytes, with vector shuffles ----

  /** `masks_offset0[p]`: which byte of the loaded pattern each lane of the first store takes. */
  function MaskOffset0(p: nat): (row: seq<nat>)
    requires 1 <= p < 16
    ensures |row| == 16
  {
    match p
    case 1 => [0, 0, 0, 0, 0, 0, 0, 0, 0, 0, 0, 0, 0, 0, 0, 0]
    case 2 => [0, 1, 0, 1, 0, 1, 0, 1, 0, 1, 0, 1, 0, 1, 0, 1]
    case 3 => [0, 1, 2, 0, 1, 2, 0, 1, 2, 0, 1, 2, 0, 1, 2, 0]
    case 4 => [0, 1, 2, 3, 0, 1, 2, 3, 0, 1, 2, 3, 0, 1, 2, 3]
    case 5 => [0, 1, 2, 3, 4, 0, 1, 2, 3, 4, 0, 1, 2, 3, 4, 0]
    case 6 => [0, 1, 2, 3, 4, 5, 0, 1, 2, 3, 4, 5, 0, 1, 2, 3]
    case 7 => [0, 1, 2, 3, 4, 5, 6, 0, 1, 2, 3, 4, 5, 6, 0, 1]
    case 8 => [0, 1, 2, 3, 4, 5, 6, 7, 0, 1, 2, 3, 4, 5, 6, 7]
    case 9 => [0, 1, 2, 3, 4, 5, 6, 7, 8, 0, 1, 2, 3, 4, 5, 6]
    case 10 => [0, 1, 2, 3, 4, 5, 6, 7, 8, 9, 0, 1, 2, 3, 4, 5]
    case 11 => [0, 1, 2, 3, 4, 5, 6, 7, 8, 9, 10, 0, 1, 2, 3, 4]
    case 12 => [0, 1, 2, 3, 4, 5, 6, 7, 8, 9, 10, 11, 0, 1, 2, 3]
    case 13 => [0, 1, 2, 3, 4, 5, 6, 7, 8, 9, 10, 11, 12, 0, 1, 2]
    case 14 => [0, 1, 2, 3, 4, 5, 6, 7, 8, 9, 10, 11, 12, 13, 0, 1]
    case _ => [0, 1, 2, 3, 4, 5, 6, 7, 8, 9, 10, 11, 12, 13, 14, 0]
  }

  /** `masks_offset16[p]`: which lane of the previous store each lane of the next one takes. */
  function MaskOffset16(p: nat): (row: seq<nat>)
    requires 1 <= p < 16
    ensures |row| == 16
  {
    match p
    case 1 => [0, 0, 0, 0, 0, 0, 0, 0, 0, 0, 0, 0, 0, 0, 0, 0]
    case 2 => [0, 1, 0, 1, 0, 1, 0, 1, 0, 1, 0, 1, 0, 1, 0, 1]
    case 3 => [1, 2, 0, 1, 2, 0, 1, 2, 0, 1, 2, 0, 1, 2, 0, 1]
    case 4 => [0, 1, 2, 3, 0, 1, 2, 3, 0, 1, 2, 3, 0, 1, 2, 3]
    case 5 => [1, 2, 3, 4, 0, 1, 2, 3, 4, 0, 1, 2, 3, 4, 0, 1]
    case 6 => [4, 5, 0, 1, 2, 3, 4, 5, 0, 1, 2, 3, 4, 5, 0, 1]
    case 7 => [2, 3, 4, 5, 6, 0, 1, 2, 3, 4, 5, 6, 0, 1, 2, 3]
    case 8 => [0, 1, 2, 3, 4, 5, 6, 7, 0, 1, 2, 3, 4, 5, 6, 7]
    case 9 => [7, 8, 0, 1, 2, 3, 4, 5, 6, 7, 8, 0, 1, 2, 3, 4]
    case 10 => [6, 7, 8, 9, 0, 1, 2, 3, 4, 5, 6, 7, 8, 9, 0, 1]
    case 11 => [5, 6, 7, 8, 9, 10, 0, 1, 2, 3, 4, 5, 6, 7, 8, 9]
    case 12 => [4, 5, 6, 7, 8, 9, 10, 11, 0, 1, 2, 3, 4, 5, 6, 7]
    case 13 => [3, 4, 5, 6, 7, 8, 9, 10, 11, 12, 0, 1, 2, 3, 4, 5]
    case 14 => [2, 3, 4, 5, 6, 7, 8, 9, 10, 11, 12, 13, 0, 1, 2, 3]
    case _ => [1, 2, 3, 4, 5, 6, 7, 8, 9, 10, 11, 12, 13, 14, 0, 1]
  }

  /** One row of a mask table against the formula it was generated from. */
  predicate IsModuloRow(row: seq<nat>, base: nat, p: nat)
    requires |row| == 16 && p >= 1
  {
    && row[0] == base % p && row[1] == (base + 1) % p && row[2] == (base + 2) % p && row[3] == (base + 3) % p
    && row[4] == (base + 4) % p && row[5] == (base + 5) % p && row[6] == (base + 6) % p && row[7] == (base + 7) % p
    && row[8] == (base + 8) % p && row[9] == (base + 9) % p && row[10] == (base + 10) % p && row[11] == (base + 11) % p
    && row[12] == (base + 12) % p && row[13] == (base + 13) % p && row[14] == (base + 14) % p
      && row[15] == (base + 15) % p
  }

  lemma MaskOffset0Low(p: nat)
    requires 1 <= p < 8
    ensures IsModuloRow(MaskOffset0(p), 0, p)
  {
    match p
    case 1 => assert IsModuloRow(MaskOffset0(1), 0, 1);
    case 2 => assert IsModuloRow(MaskOffset0(2), 0, 2);
    case 3 => assert IsModuloRow(MaskOffset0(3), 0, 3);
    case 4 => assert IsModuloRow(MaskOffset0(4), 0, 4);
    case 5 => assert IsModuloRow(MaskOffset0(5), 0, 5);
    case 6 => assert IsModuloRow(MaskOffset0(6), 0, 6);
    case _ => assert IsModuloRow(MaskOffset0(7), 0, 7);
  }

  lemma MaskOffset0High(p: nat)
    requires 8 <= p < 16
    ensures IsModuloRow(MaskOffset0(p), 0, p)
  {
    match p
    case 8 => assert IsModuloRow(MaskOffset0(8), 0, 8);
    case 9 => assert IsModuloRow(MaskOffset0(9), 0, 9);
    case 10 => assert IsModuloRow(MaskOffset0(10), 0, 10);
    case 11 => assert IsModuloRow(MaskOffset0(11), 0, 11);
    case 12 => assert IsModuloRow(MaskOffset0(12), 0, 12);
    case 13 => assert IsModuloRow(MaskOffset0(13), 0, 13);
    case 14 => assert IsModuloRow(MaskOffset0(14), 0, 14);
    case _ => assert IsModuloRow(MaskOffset0(15), 0, 15);
  }

  lemma MaskOffset16Low(p: nat)
    requires 1 <= p < 8
    ensures IsModuloRow(MaskOffset16(p), 16, p)
  {
    match p
    case 1 => assert IsModuloRow(MaskOffset16(1), 16, 1);
    case 2 => assert IsModuloRow(MaskOffset16(2), 16, 2);
    case 3 => assert IsModuloRow(MaskOffset16(3), 16, 3);
    case 4 => assert IsModuloRow(MaskOffset16(4), 16, 4);
    case 5 => assert IsModuloRow(MaskOffset16(5), 16, 5);
    case 6 => assert IsModuloRow(MaskOffset16(6), 16, 6);
    case _ => assert IsModuloRow(MaskOffset16(7), 16, 7);
  }

  lemma MaskOffset16High(p: nat)
    requires 8 <= p < 16
    ensures IsModuloRow(MaskOffset16(p), 16, p)
  {
    match p
    case 8 => assert IsModuloRow(MaskOffset16(8), 16, 8);
    case 9 => assert IsModuloRow(MaskOffset16(9), 16, 9);
    case 10 => assert IsModuloRow(MaskOffset16(10), 16, 10);
    case 11 => assert IsModuloRow(MaskOffset16(11), 16, 11);
    case 12 => assert IsModuloRow(MaskOffset16(12), 16, 12);
    case 13 => assert IsModuloRow(MaskOffset16(13), 16, 13);
    case 14 => assert IsModuloRow(MaskOffset16(14), 16, 14);
    case _ => assert IsModuloRow(MaskOffset16(15), 16, 15);
  }

  /** The two mask tables hold `i % p` and `(16 + i) % p`. */
  lemma MaskRows(p: nat)
    requires 1 <= p < 16
    ensures IsModuloRow(MaskOffset0(p), 0, p)
    ensures IsModuloRow(MaskOffset16(p), 16, p)
  {
    if p < 8 {
      MaskOffset0Low(p);
      MaskOffset16Low(p);
    } else {
      MaskOffset0High(p);
      MaskOffset16High(p);
    }
  }

  /** Lane `i` holds `(base + i) % p`. */
  ghost predicate CountsModulo(row: seq<nat>, base: nat, p: nat)
  {
    |row| == 16 && p >= 1 && forall i :: 0 <= i < 16 ==> row[i] == (base + i) % p
  }

  /** The table lookup: both masks for a pattern size. */
  method LoadMasks(p: nat) returns (first: seq<nat>, next: seq<nat>)
    requires 1 <= p < 16
    ensures CountsModulo(first, 0, p)
    ensures CountsModulo(next, 16, p)
  {
    MaskRows(p);
    first, next := MaskOffset0(p), MaskOffset16(p);
    ModuloRowCounts(first, 0, p);
    ModuloRowCounts(next, 16, p);
  }

  lemma ModuloRowCounts(row: seq<nat>, base: nat, p: nat)
    requires |row| == 16 && p >= 1
    requires IsModuloRow(row, base, p)
    ensures CountsModulo(row, base, p)
  {
  }

  lemma ModuloUnique(q: int, p: nat, r: nat)
    requires r < p
    ensures (q * p + r) % p == r
  {
    var x := q * p + r;
    var d := x / p - q;
    assert d * p == r - x % p;
  }

  lemma ModuloDrop(x: nat, p: nat)
    requires 1 <= p <= x
    ensures x % p == (x - p) % p
  {
    ModuloUnique(x / p - 1, p, x % p);
    assert (x / p - 1) * p == x / p * p - p;
  }

  /** A vector shuffle: lane `i` of the result is lane `mask[i]` of the operand. */
  function ShuffleLanes(v: seq<byte>, mask: seq<nat>): (w: seq<byte>)
    requires |v| == |mask| == 16
    requires forall i :: 0 <= i < 16 ==> mask[i] < 16
  {
    seq(16, i requires 0 <= i < 16 => v[mask[i]])
  }

  /** A lane vector that repeats with period `p`. */
  ghost predicate Cyclic(v: seq<byte>, p: nat)
  {
    |v| == 16 && forall x :: 0 < p <= x < 16 ==> v[x] == v[x - p]
  }

  lemma {:induction false} CyclicAt(v: seq<byte>, p: nat, x: nat)
    requires Cyclic(v, p) && 1 <= p < 16 && x < 16
    ensures v[x % p] == v[x]
  {
    if x < p {
    } else {
      CyclicAt(v, p, x - p);
      ModuloDrop(x, p);
    }
  }

  /** The first shuffle spreads the pattern over all 16 lanes. */
  lemma LoadPattern(raw: seq<byte>, mask: seq<nat>, p: nat)
    requires |raw| == 16 && 1 <= p < 16 && CountsModulo(mask, 0, p)
    ensures forall i :: 0 <= i < 16 ==> mask[i] < 16
    ensures Cyclic(ShuffleLanes(raw, mask), p)
    ensures forall i :: 0 <= i < p ==> ShuffleLanes(raw, mask)[i] == raw[i]
  {
    forall i | 0 <= i < 16 ensures mask[i] < 16 && mask[i] == if i < p then i else mask[i - p] {
      if i >= p {
        ModuloDrop(i, p);
      } else {
        ModuloUnique(0, p, i);
      }
    }
  }

  /** Each further shuffle carries the pattern on from where the previous 16 lanes stopped. */
  lemma NextPattern(v: seq<byte>, mask: seq<nat>, p: nat)
    requires Cyclic(v, p) && 1 <= p < 16 && CountsModulo(mask, 16, p)
    ensures forall i :: 0 <= i < 16 ==> mask[i] < 16
    ensures Cyclic(ShuffleLanes(v, mask), p)
    ensures forall i :: 0 <= i < p ==> ShuffleLanes(v, mask)[i] == v[16 + i - p]
  {
    forall i | 0 <= i < 16
      ensures mask[i] < 16
      ensures i >= p ==> mask[i] == mask[i - p]
      ensures i < p ==> v[mask[i]] == v[16 + i - p]
    {
      ModuloDrop(16 + i, p);
      if i < p {
        CyclicAt(v, p, 16 + i - p);
      }
    }
  }

  /** Spreads the pattern over 16 bytes and stores them behind it. */
  method StoreFirst(a: array<byte>, src: nat, mask: seq<nat>, p: nat) returns (v: seq<byte>)
    requires 1 <= p < 16 && src + p + 16 <= a.Length && CountsModulo(mask, 0, p)
    modifies a
    ensures Cyclic(v, p) && a[src + p..src + p + 16] == v
    ensures forall k :: src + p <= k < src + p + 16 ==> a[k] == a[k - p]
    ensures forall k :: 0 <= k < src + p || src + p + 16 <= k < a.Length ==> a[k] == old(a[k])
  {
    var op, raw := src + p, a[src..src + 16];
    LoadPattern(raw, mask, p);
    v := ShuffleLanes(raw, mask);
    Put(a, op, v);
    forall k | op <= k < op + 16 ensures a[k] == a[k - p] {
      if k < op + p {
        assert a[k] == raw[k - op];
      } else {
        assert v[k - op] == v[k - op - p];
      }
    }
  }

  /** Shuffles the last 16 bytes on and stores them at `at`. */
  method StoreNext(a: array<byte>, v: seq<byte>, mask: seq<nat>, p: nat, at: nat) returns (w: seq<byte>)
    requires 16 <= at && at + 16 <= a.Length && 1 <= p < 16
    requires Cyclic(v, p) && CountsModulo(mask, 16, p) && a[at - 16..at] == v
    modifies a
    ensures Cyclic(w, p) && a[at..at + 16] == w
    ensures forall k :: at <= k < at + 16 ==> a[k] == a[k - p]
    ensures forall k :: 0 <= k < at || at + 16 <= k < a.Length ==> a[k] == old(a[k])
  {
    NextPattern(v, mask, p);
    w := ShuffleLanes(v, mask);
    Put(a, at, w);
    forall k | at <= k < at + 16 ensures a[k] == a[k - p] {
      if k < at + p {
        assert a[k] == w[k - at] == v[16 + (k - at) - p];
        assert v[k - p - (at - 16)] == old(a[at - 16..at])[k - p - (at - 16)];
      } else {
        assert w[k - at] == w[k - at - p];
      }
    }
  }

  method ShortPatternShuffle(a: array<byte>, src: nat, op: nat, opLimit: nat, bufLimit: nat)
    requires src < op < src + 16 && op < opLimit <= bufLimit <= a.Length
    requires opLimit - op <= 64
    modifies a
    ensures Filled(a, op - src, op, opLimit, bufLimit)
  {
    if opLimit + 15 <= bufLimit {
      var p := op - src;
      var first, next := LoadMasks(p);
      var v := StoreFirst(a, src, first, p);
      if op + 16 < opLimit {
        v := StoreNext(a, v, next, p, op + 16);
      }
      if op + 32 < opLimit {
        v := StoreNext(a, v, next, p, op + 32);
      }
      if op + 48 < opLimit {
        v := StoreNext(a, v, next, p, op + 48);
      }
    } else {
      IncrementalCopySlow(a, src, op, opLimit);
    }
  }

  // ---- patterns of 16 bytes and more ----

  method LongPattern(a: array<byte>, src: nat, op: nat, opLimit: nat, bufLimit: nat)
    requires src + 16 <= op < opLimit <= bufLimit <= a.Length
    requires opLimit - op <= 64
    modifies a
    ensures Filled(a, op - src, op, opLimit, bufLimit)
  {
    if opLimit + 15 <= bufLimit {
      CopySixteens(a, src, op, opLimit);
      return;
    }
    var s, o := src, op;
    while o + 16 < bufLimit
      invariant op <= o && o - s == op - src && (o <= bufLimit || o == op)
      invariant Filled(a, op - src, op, o, bufLimit)
    {
      label Step:
      Move(a, s, o, 16);
      forall k | o <= k < o + 16 ensures a[k] == a[k - (op - src)] {
        assert a[k] == old@Step(a[s + k - o]);
      }
      s, o := s + 16, o + 16;
    }
    if o >= opLimit {
      return;
    }
    if o + 8 <= bufLimit {
      label Step:
      Move(a, s, o, 8);
      forall k | o <= k < o + 8 ensures a[k] == a[k - (op - src)] {
        assert a[k] == old@Step(a[s + k - o]);
      }
      s, o := s + 8, o + 8;
    }
    IncrementalCopySlow(a, s, o, opLimit);
  }

  /** Up to four 16-byte moves at a distance of at least 16; the last may overshoot by 15. */
  method CopySixteens(a: array<byte>, src: nat, op: nat, opLimit: nat)
    requires src + 16 <= op < opLimit && opLimit + 15 <= a.Length
    requires opLimit - op <= 64
    modifies a
    ensures Filled(a, op - src, op, opLimit, opLimit + 15)
  {
    Move(a, src, op, 16);
    label One:
    if op + 16 < opLimit {
      Move(a, src + 16, op + 16, 16);
    }
    label Two:
    if op + 32 < opLimit {
      Move(a, src + 32, op + 32, 16);
    }
    label Three:
    if op + 48 < opLimit {
      Move(a, src + 48, op + 48, 16);
    }
  }

  // ---- the whole operation ----

  /**
   * Every form of `incremental_copy` leaves the output that the byte-at-a-time copy leaves; it
   * touches nothing below `op` and nothing at or past `bufLimit`.
   */
  method IncrementalCopy(build: Build, a: array<byte>, src: nat, op: nat, opLimit: nat, bufLimit: nat)
    requires src < op < opLimit <= bufLimit <= a.Length
    requires opLimit - op <= 64
    modifies a
    ensures a[..opLimit] == CopyMatch(old(a[..op]), op - src, opLimit - op)
    ensures forall k :: bufLimit <= k < a.Length ==> a[k] == old(a[k])
  {
    if op - src < 16 {
      match build
      case Shuffle => ShortPatternShuffle(a, src, op, opLimit, bufLimit);
      case Scalar => ShortPatternScalar(a, src, op, opLimit, bufLimit);
    } else {
      LongPattern(a, src, op, opLimit, bufLimit);
    }
    assert Filled(a, op - src, op, opLimit, bufLimit);
    assert a[..opLimit][..op] == old(a[..op]);
    RepeatsIsCopyMatch(a[..opLimit], old(a[..op]), op - src);
  }
}
