/** The general-case bit unpacker: a 64-bit accumulator against slicing byte by byte. */
module BitUnpack {
  import opened Bytes

  // ---- bits of a number ----

  /** `x >> n` */
  function Shr(x: nat, n: nat): (y: nat)
  {
    if n == 0 then x else Shr(x / 2, n - 1)
  }

  /** `x & ((1 << n) - 1)` */
  function Low(x: nat, n: nat): (y: nat)
    ensures y < Pow2(n)
  {
    if n == 0 then 0 else x % 2 + 2 * Low(x / 2, n - 1)
  }

  lemma {:induction false} ShrShr(x: nat, a: nat, b: nat)
    ensures Shr(Shr(x, a), b) == Shr(x, a + b)
  {
    if a == 0 {
    } else {
      ShrShr(x / 2, a - 1, b);
    }
  }

  lemma {:induction false} Pow2Add(a: nat, b: nat)
    ensures Pow2(a + b) == Pow2(a) * Pow2(b)
  {
    if a == 0 {
    } else {
      Pow2Add(a - 1, b);
      Double(Pow2(a - 1), Pow2(b));
    }
  }

  /** Low bits taken in two portions. */
  lemma {:induction false} LowSplit(x: nat, a: nat, b: nat)
    ensures Low(x, a + b) == Low(x, a) + Pow2(a) * Low(Shr(x, a), b)
  {
    if a == 0 {
    } else {
      LowSplit(x / 2, a - 1, b);
      Double(Pow2(a - 1), Low(Shr(x, a), b));
    }
  }

  /** A number is its low bits and the rest. */
  lemma {:induction false} LowAndShr(x: nat, n: nat)
    ensures x == Low(x, n) + Pow2(n) * Shr(x, n)
  {
    if n == 0 {
    } else {
      LowAndShr(x / 2, n - 1);
      Double(Pow2(n - 1), Shr(x, n));
    }
  }

  lemma ShrIsDivision(x: nat, n: nat)
    ensures Shr(x, n) == x / Pow2(n) && Low(x, 1) == x % 2 && Low(Shr(x, n), 1) == x / Pow2(n) % 2
  {
    LowAndShr(x, n);
    QuotientOf(x, Low(x, n), Pow2(n), Shr(x, n));
  }

  lemma QuotientOf(x: nat, low: nat, p: nat, q: nat)
    requires p >= 1 && low < p && x == low + p * q
    ensures x / p == q
  {
    TimesMore(p, x / p, q);
    TimesMore(p, q, x / p);
    assert x == p * (x / p) + x % p;
  }

  lemma TimesMore(p: nat, a: nat, b: nat)
    ensures a < b ==> p * a + p <= p * b
  {
    if a < b {
      assert p * (b - a - 1) >= 0;
      assert p * b == p * a + p + p * (b - a - 1);
    }
  }

  /** Bits put on top of a number that fits below them come apart again. */
  lemma {:induction false} ShrLowOfSum(x: nat, a: nat, c: nat, n: nat)
    requires a < Pow2(n) && x == a + Pow2(n) * c
    ensures Low(x, n) == a && Shr(x, n) == c
    decreases n
  {
    if n == 0 {
    } else {
      Halves(x, a, Pow2(n), Pow2(n - 1), c);
      ShrLowOfSum(x / 2, a / 2, c, n - 1);
    }
  }

  /** What stands above `m` bits does not show in the bits `[r, r + n)` below them. */
  lemma {:induction false} LowIgnoresHigh(x: nat, a: nat, c: nat, m: nat, r: nat, n: nat)
    requires r + n <= m && x == a + Pow2(m) * c
    ensures Low(Shr(x, r), n) == Low(Shr(a, r), n)
    decreases m
  {
    if r + n > 0 {
      Halves(x, a, Pow2(m), Pow2(m - 1), c);
      if r > 0 {
        LowIgnoresHigh(x / 2, a / 2, c, m - 1, r - 1, n);
      } else {
        LowIgnoresHigh(x / 2, a / 2, c, m - 1, 0, n - 1);
      }
    }
  }

  lemma EightBits()
    ensures Pow2(8) == 256
  {
    assert Pow2(4) == 16;
  }

  lemma ShrByte(s: seq<byte>)
    requires s != []
    ensures Shr(LE(s), 8) == LE(s[1..])
  {
    EightBits();
    ShrLowOfSum(LE(s), s[0], LE(s[1..]), 8);
  }

  /** Bytes of a little-endian number are groups of eight bits. */
  lemma {:induction false} ShrBytes(s: seq<byte>, k: nat)
    requires k <= |s|
    ensures Shr(LE(s), 8 * k) == LE(s[k..])
    decreases k
  {
    if k == 0 {
      assert s[0..] == s;
    } else {
      ShrBytes(s, k - 1);
      var t := s[k - 1..];
      ShrByte(t);
      ShrShr(LE(s), 8 * (k - 1), 8);
      assert 8 * (k - 1) + 8 == 8 * k;
      assert t[1..] == s[k..];
    }
  }

  /** Value `i` of the unpacked eight: bits `[i * w, (i + 1) * w)` of the input. */
  function Field(s: seq<byte>, w: nat, i: nat): (v: nat)
  {
    Low(Shr(LE(s), i * w), w)
  }

  /** In the number that the bytes make up: shifted down by `i` values, and the lowest `w` bits of that. */
  lemma FieldMeans(s: seq<byte>, w: nat, i: nat)
    ensures Field(s, w, i) == LE(s) / Pow2(i * w) % Pow2(w)
  {
    var x := Shr(LE(s), i * w);
    ShrIsDivision(LE(s), i * w);
    LowAndShr(x, w);
    RemainderOf(x, Low(x, w), Pow2(w), Shr(x, w));
  }

  lemma RemainderOf(x: nat, low: nat, p: nat, q: nat)
    requires p >= 1 && low < p && x == low + p * q
    ensures x % p == low
  {
    QuotientOf(x, low, p, q);
    assert x == p * (x / p) + x % p;
  }

  /** Bits of one byte seen through the whole number. */
  lemma BitsOfByte(s: seq<byte>, pos: nat, n: nat)
    requires pos / 8 < |s| && pos % 8 + n <= 8
    ensures Low(Shr(LE(s), pos), n) == Low(Shr(s[pos / 8], pos % 8), n)
  {
    var q, r := pos / 8, pos % 8;
    ShrBytes(s, q);
    ShrShr(LE(s), 8 * q, r);
    assert 8 * q + r == pos;
    var t := s[q..];
    EightBits();
    LowIgnoresHigh(LE(t), t[0], LE(t[1..]), 8, r, n);
  }

  // ---- the byte-slicing form ----

  /** One value: up to eight bits at a time from each byte it touches. */
  method SliceValue(s: seq<byte>, w: nat, bitPos: nat) returns (bits: nat)
    requires bitPos + w <= 8 * |s|
    ensures bits == Low(Shr(LE(s), bitPos), w)
  {
    ghost var x := Shr(LE(s), bitPos);
    var pos, needed, held := bitPos, w, 0;
    bits := 0;
    while needed > 0
      invariant 0 <= needed && held + needed == w && pos == bitPos + held
      invariant bits == Low(x, held)
    {
      var n := 8 - pos % 8;
      if n > needed {
        n := needed;
      }
      var b := s[pos / 8];
      var extracted := Low(Shr(b, pos % 8), n);
      BitsOfByte(s, pos, n);
      ShrShr(LE(s), bitPos, held);
      LowSplit(x, held, n);
      bits := bits + Pow2(held) * extracted;
      pos, held, needed := pos + n, held + n, needed - n;
    }
  }

  method Reference(s: seq<byte>, w: nat, values: array<nat>)
    requires 1 <= w <= 32 && |s| == w && values.Length == 8
    modifies values
    ensures forall i :: 0 <= i < 8 ==> values[i] == Field(s, w, i)
  {
    var bitPos := 0;
    for i := 0 to 8
      invariant bitPos == i * w
      invariant forall j :: 0 <= j < i ==> values[j] == Field(s, w, j)
    {
      FieldInside(i, w);
      values[i] := SliceValue(s, w, bitPos);
      bitPos := bitPos + w;
    }
  }

  lemma FieldInside(i: nat, w: nat)
    requires i < 8
    ensures i * w + w <= 8 * w && (i + 1) * w == i * w + w
  {
  }

  // ---- the accumulator form ----

  /** The accumulator holds `held` bits; with the bytes not yet read on top of them it is `x`. */
  ghost predicate Holds(x: nat, acc: nat, held: nat, rest: seq<byte>)
  {
    acc < Pow2(held) && x == acc + Pow2(held) * LE(rest)
  }

  /** Reading one more byte: `acc |= byte << held`. */
  lemma HoldsNext(x: nat, acc: nat, held: nat, rest: seq<byte>)
    requires rest != [] && Holds(x, acc, held, rest)
    ensures Holds(x, acc + Pow2(held) * rest[0], held + 8, rest[1..])
  {
    var p, b, r := Pow2(held), rest[0] as int, LE(rest[1..]);
    EightBits();
    Pow2Add(held, 8);
    assert LE(rest) == b + 256 * r;
    Spread(p, b, r);
    Fits(acc, p, b);
  }

  lemma Spread(p: int, b: int, r: int)
    ensures p * (b + 256 * r) == p * b + (p * 256) * r
  {
  }

  lemma Fits(acc: nat, p: nat, b: nat)
    requires acc < p && b < 256
    ensures acc + p * b < p * 256
  {
    assert p * b <= p * 255;
  }

  /** Taking a value out: `acc & mask`, then `acc >>= w`. */
  lemma HoldsTake(x: nat, acc: nat, held: nat, rest: seq<byte>, w: nat)
    requires w <= held && Holds(x, acc, held, rest)
    ensures Low(x, w) == Low(acc, w)
    ensures Holds(Shr(x, w), Shr(acc, w), held - w, rest)
  {
    var low, high, q := Low(acc, w), Shr(acc, w), Pow2(held - w);
    var y := high + q * LE(rest);
    LowAndShr(acc, w);
    Pow2Add(w, held - w);
    TakeParts(x, acc, Pow2(held), Pow2(w), q, low, high, LE(rest), y);
    ShrLowOfSum(x, low, y, w);
  }

  lemma TakeParts(x: nat, acc: nat, all: nat, p: nat, q: nat, low: nat, high: nat, r: nat, y: nat)
    requires all == p * q && acc == low + p * high && acc < all && x == acc + all * r && y == high + q * r
    ensures high < q && x == low + p * y
  {
    Regroup(p, q, high, r);
    if high >= q {
      Scale(p, q, high);
    }
  }

  lemma Regroup(p: int, q: int, high: int, r: int)
    ensures p * (high + q * r) == p * high + (p * q) * r
  {
  }

  lemma Scale(p: nat, q: nat, high: nat)
    requires high >= q
    ensures p * high >= p * q
  {
  }

  method PutByte(s: seq<byte>, acc: nat, held: nat, bytePos: nat, ghost x: nat) returns (acc': nat)
    requires bytePos < |s| && Holds(x, acc, held, s[bytePos..])
    ensures Holds(x, acc', held + 8, s[bytePos + 1..])
  {
    HoldsNext(x, acc, held, s[bytePos..]);
    assert s[bytePos..][1..] == s[bytePos + 1..];
    acc' := acc + Pow2(held) * s[bytePos];
  }

  /** Refills until a value fits; the accumulator never holds more than 39 bits. */
  method Refill(s: seq<byte>, w: nat, acc: nat, held: nat, bytePos: nat, ghost x: nat, ghost start: nat)
    returns (acc': nat, held': nat, bytePos': nat)
    requires 1 <= w <= 32 && |s| == w && start + w <= 8 * w && bytePos <= |s|
    requires 8 * bytePos == start + held && held <= 39
    requires Holds(x, acc, held, s[bytePos..])
    ensures w <= held' <= 39 && bytePos' <= |s| && 8 * bytePos' == start + held'
    ensures Holds(x, acc', held', s[bytePos'..])
  {
    acc', held', bytePos' := acc, held, bytePos;
    while held' < w
      invariant bytePos' <= |s| && 8 * bytePos' == start + held' && held' <= 39
      invariant Holds(x, acc', held', s[bytePos'..])
      decreases |s| - bytePos'
    {
      acc' := PutByte(s, acc', held', bytePos', x);
      bytePos', held' := bytePos' + 1, held' + 8;
    }
  }

  /** The accumulator unpacker: the same eight fields, from exactly `w` bytes. */
  method Accumulator(s: seq<byte>, w: nat, values: array<nat>) returns (bytePos: nat)
    requires 1 <= w <= 32 && |s| == w && values.Length == 8
    modifies values
    ensures forall i :: 0 <= i < 8 ==> values[i] == Field(s, w, i)
    ensures bytePos == w
  {
    var acc: nat, held: nat := 0, 0;
    bytePos := 0;
    assert s[0..] == s;
    for i := 0 to 8
      invariant bytePos <= |s| && 8 * bytePos == i * w + held && held <= 39
      invariant Holds(Shr(LE(s), i * w), acc, held, s[bytePos..])
      invariant forall j :: 0 <= j < i ==> values[j] == Field(s, w, j)
    {
      ghost var x := Shr(LE(s), i * w);
      FieldInside(i, w);
      acc, held, bytePos := Refill(s, w, acc, held, bytePos, x, i * w);
      HoldsTake(x, acc, held, s[bytePos..], w);
      values[i] := Low(acc, w);
      ShrShr(LE(s), i * w, w);
      acc, held := Shr(acc, w), held - w;
    }
  }
}
