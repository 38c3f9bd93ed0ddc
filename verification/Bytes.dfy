/** Bytes, little-endian words and the raw memory moves that the codecs are built from. */
module Bytes {

  type byte = x: int | 0 <= x < 256

  /** The little-endian value of a byte string: what `load32` and `load64` read. */
  function LE(s: seq<byte>): (v: nat)
  {
    if s == [] then 0 else s[0] + 256 * LE(s[1..])
  }

  function Load32(s: seq<byte>, p: nat): (v: nat)
    requires p + 4 <= |s|
  {
    LE(s[p..p + 4])
  }

  function Load64(s: seq<byte>, p: nat): (v: nat)
    requires p + 8 <= |s|
  {
    LE(s[p..p + 8])
  }

  lemma LEConcat1(b: byte, s: seq<byte>)
    ensures LE([b] + s) == b + 256 * LE(s)
    ensures LE([b] + s) % 256 == b
    ensures LE([b] + s) / 256 == LE(s)
  {
    assert ([b] + s)[1..] == s;
  }

  lemma LEStep(s: seq<byte>)
    requires s != []
    ensures LE(s) % 256 == s[0]
    ensures LE(s) / 256 == LE(s[1..])
  {
  }

  lemma LEOfTwo(s: seq<byte>)
    requires |s| == 2
    ensures LE(s) == s[0] + 0x100 * s[1] as int
  {
    assert LE(s[1..]) == s[1];
  }

  lemma LEOfFour(s: seq<byte>)
    requires |s| == 4
    ensures LE(s) == s[0] + 0x100 * s[1] as int + 0x1_0000 * s[2] as int + 0x100_0000 * s[3] as int
  {
    LEOfTwo(s[2..]);
    assert s[1..][1..] == s[2..];
    assert LE(s[1..]) == s[1] + 0x100 * LE(s[2..]);
  }

  /** Words of the same width are equal only if their bytes are. */
  lemma {:induction false} LEInjective(s: seq<byte>, t: seq<byte>)
    requires |s| == |t|
    requires LE(s) == LE(t)
    ensures s == t
  {
    if s == [] {
    } else {
      LEStep(s);
      LEStep(t);
      LEInjective(s[1..], t[1..]);
      assert s == [s[0]] + s[1..];
      assert t == [t[0]] + t[1..];
    }
  }

  function Pow256(n: nat): (p: nat)
    ensures p >= 1
  {
    if n == 0 then 1 else 256 * Pow256(n - 1)
  }

  lemma {:induction false} LEBound(s: seq<byte>)
    ensures LE(s) < Pow256(|s|)
  {
    if s == [] {
    } else {
      LEBound(s[1..]);
    }
  }

  /** The little-endian encoding of `v` on `n` bytes, truncating `v` as a cast does. */
  function ToLE(v: nat, n: nat): (s: seq<byte>)
    ensures |s| == n
  {
    if n == 0 then [] else [v % 256] + ToLE(v / 256, n - 1)
  }

  lemma {:induction false} LEToLE(v: nat, n: nat)
    requires v < Pow256(n)
    ensures LE(ToLE(v, n)) == v
  {
    if n == 0 {
    } else {
      LEToLE(v / 256, n - 1);
      LEConcat1(v % 256, ToLE(v / 256, n - 1));
    }
  }

  lemma {:induction false} ToLELE(s: seq<byte>)
    ensures ToLE(LE(s), |s|) == s
  {
    if s == [] {
    } else {
      LEStep(s);
      ToLELE(s[1..]);
    }
  }

  /** Storing a word on more bytes than it needs puts the shorter encoding first. */
  lemma {:induction false} ToLEPrefix(v: nat, m: nat, n: nat)
    requires m <= n
    ensures ToLE(v, n)[..m] == ToLE(v, m)
  {
    if m == 0 {
    } else {
      ToLEPrefix(v / 256, m - 1, n - 1);
      assert ToLE(v, n)[..m] == [v % 256] + ToLE(v / 256, n - 1)[..m - 1];
    }
  }

  lemma Distribute(a: int, p: int, b: int)
    ensures 256 * (a + p * b) == 256 * a + (256 * p) * b
  {
  }

  lemma {:induction false} LESplit(s: seq<byte>, n: nat)
    requires n <= |s|
    ensures LE(s) == LE(s[..n]) + Pow256(n) * LE(s[n..])
  {
    if n == 0 {
      assert s[0..] == s;
    } else {
      LESplit(s[1..], n - 1);
      assert s[..n][1..] == s[1..][..n - 1] && s[1..][n - 1..] == s[n..];
      Distribute(LE(s[1..][..n - 1]), Pow256(n - 1), LE(s[n..]));
    }
  }

  /** Concatenation of the byte strings of a sequence of things. */
  function Join<T>(w: T -> seq<byte>, es: seq<T>): (s: seq<byte>)
  {
    if es == [] then [] else w(es[0]) + Join(w, es[1..])
  }

  lemma {:induction false} JoinConcat<T>(w: T -> seq<byte>, es: seq<T>, fs: seq<T>)
    ensures Join(w, es + fs) == Join(w, es) + Join(w, fs)
  {
    if es == [] {
      assert es + fs == fs;
    } else {
      JoinConcat(w, es[1..], fs);
      assert (es + fs)[1..] == es[1..] + fs;
      ConcatAssociates(w(es[0]), Join(w, es[1..]), Join(w, fs));
    }
  }

  lemma JoinOne<T>(w: T -> seq<byte>, e: T)
    ensures Join(w, [e]) == w(e)
  {
  }

  // ---- the first differing byte of two words, as XOR and count-trailing-zeros finds it ----

  /** Count of trailing zero bits of `a ^ b`: the number of low bits on which two words agree. */
  function CtzXor(a: nat, b: nat): (n: nat)
    requires a != b
    decreases a + b
  {
    if a % 2 != b % 2 then 0 else 1 + CtzXor(a / 2, b / 2)
  }

  function Pow2(n: nat): (p: nat)
    ensures p >= 1
  {
    if n == 0 then 1 else 2 * Pow2(n - 1)
  }

  lemma Double(p: int, q: int)
    ensures 2 * (p * q) == (2 * p) * q
  {
  }

  /** Halving `c + q * a` for an even `q`. */
  lemma Halves(x: nat, c: nat, q: nat, p: nat, a: nat)
    requires q == 2 * p && x == c + q * a
    ensures x % 2 == c % 2 && x / 2 == c / 2 + p * a
  {
    Double(p, a);
    HalveEven(x, c, p * a);
  }

  lemma HalveEven(x: nat, c: nat, u: nat)
    requires x == c + 2 * u
    ensures x % 2 == c % 2 && x / 2 == c / 2 + u
  {
  }

  /** Words whose low `n` bits differ differ in one of them. */
  lemma {:induction false} CtzXorLow(x: nat, y: nat, a: nat, b: nat, c: nat, d: nat, n: nat)
    requires c < Pow2(n) && d < Pow2(n) && c != d
    requires x == c + Pow2(n) * a && y == d + Pow2(n) * b && x != y
    ensures CtzXor(x, y) < n
  {
    Halves(x, c, Pow2(n), Pow2(n - 1), a);
    Halves(y, d, Pow2(n), Pow2(n - 1), b);
    if x % 2 == y % 2 {
      CtzXorLow(x / 2, y / 2, a, b, c / 2, d / 2, n - 1);
    }
  }

  /** Words whose low `n` bits agree agree on `n` bits more than their upper parts do. */
  lemma {:induction false} CtzXorHigh(x: nat, y: nat, a: nat, b: nat, c: nat, n: nat)
    requires c < Pow2(n) && a != b
    requires x == c + Pow2(n) * a && y == c + Pow2(n) * b
    ensures x != y && CtzXor(x, y) == n + CtzXor(a, b)
  {
    if n == 0 {
    } else {
      Halves(x, c, Pow2(n), Pow2(n - 1), a);
      Halves(y, c, Pow2(n), Pow2(n - 1), b);
      CtzXorHigh(x / 2, y / 2, a, b, c / 2, n - 1);
      CtzXorStep(x, y);
    }
  }

  lemma CtzXorStep(x: nat, y: nat)
    requires x % 2 == y % 2 && x / 2 != y / 2
    ensures x != y && CtzXor(x, y) == 1 + CtzXor(x / 2, y / 2)
  {
  }

  /** `ctz(a ^ b) >> 3` is the index of the first byte on which two words differ. */
  lemma {:induction false} CtzXorFindsByte(s: seq<byte>, t: seq<byte>)
    requires |s| == |t|
    requires LE(s) != LE(t)
    ensures CtzXor(LE(s), LE(t)) / 8 < |s|
    ensures s[..CtzXor(LE(s), LE(t)) / 8] == t[..CtzXor(LE(s), LE(t)) / 8]
    ensures s[CtzXor(LE(s), LE(t)) / 8] != t[CtzXor(LE(s), LE(t)) / 8]
  {
    assert Pow2(8) == 256 by {
      assert Pow2(4) == 16;
    }
    if s[0] != t[0] {
      CtzXorLow(LE(s), LE(t), LE(s[1..]), LE(t[1..]), s[0], t[0], 8);
    } else {
      CtzXorHigh(LE(s), LE(t), LE(s[1..]), LE(t[1..]), s[0], 8);
      CtzXorFindsByte(s[1..], t[1..]);
      var k := CtzXor(LE(s[1..]), LE(t[1..])) / 8;
      assert CtzXor(LE(s), LE(t)) / 8 == k + 1;
      assert s[..k + 1] == [s[0]] + s[1..][..k];
      assert t[..k + 1] == [t[0]] + t[1..][..k];
    }
  }

  // ---- slices ----

  lemma SliceOfSlice<T>(s: seq<T>, i: nat, n: nat)
    requires n <= i <= |s|
    ensures s[..i][n..] == s[n..][..i - n] && s[..i][..n] == s[..n] && s[n..][i - n..] == s[i..]
  {
  }

  lemma PrefixThenSlice<T>(s: seq<T>, i: nat, j: nat)
    requires i <= j <= |s|
    ensures s[..j] == s[..i] + s[i..j]
  {
  }

  lemma HeadThenRest<T>(s: seq<T>, i: nat, j: nat)
    requires i < j <= |s|
    ensures s[i..j] == [s[i]] + s[i + 1..j]
  {
  }

  lemma ConcatAssociates<T>(a: seq<T>, b: seq<T>, c: seq<T>)
    ensures (a + b) + c == a + (b + c)
  {
  }

  // ---- memory moves on a mutable buffer ----

  /** One element behind the `n` that stand from `lo` on. */
  method Append<T>(a: array<T>, lo: nat, n: nat, x: T)
    requires lo + n < a.Length
    modifies a
    ensures a[lo..lo + n + 1] == old(a[lo..lo + n]) + [x]
    ensures a[..lo] == old(a[..lo])
    ensures forall k :: 0 <= k < lo || lo + n < k < a.Length ==> a[k] == old(a[k])
  {
    a[lo + n] := x;
  }

  /** `copy64`, `copy128`, `memmove`: every byte is read before any is written. */
  method Move(a: array<byte>, from: nat, to: nat, n: nat)
    requires from + n <= a.Length && to + n <= a.Length
    modifies a
    ensures forall k :: to <= k < to + n ==> a[k] == old(a[from + k - to])
    ensures forall k :: 0 <= k < to || to + n <= k < a.Length ==> a[k] == old(a[k])
  {
    forall i | 0 <= i < n {
      a[to + i] := a[from + i];
    }
  }

  /** `memcpy` inside one buffer: the same move, defined only when the ranges are apart. */
  method CopyApart(a: array<byte>, from: nat, to: nat, n: nat)
    requires from + n <= a.Length && to + n <= a.Length
    requires from + n <= to || to + n <= from
    modifies a
    ensures forall k :: to <= k < to + n ==> a[k] == old(a[from + k - to])
    ensures forall k :: 0 <= k < to || to + n <= k < a.Length ==> a[k] == old(a[k])
  {
    Move(a, from, to, n);
  }

  /** `memcpy` of more than is wanted: the first `n` bytes count, the others are overwritten later. */
  method PutPrefix(a: array<byte>, to: nat, s: seq<byte>, n: nat)
    requires to + |s| <= a.Length && n <= |s|
    modifies a
    ensures a[..to + n] == old(a[..to]) + s[..n]
  {
    Put(a, to, s);
    assert a[to..to + n] == s[..n];
    assert a[..to] == old(a[..to]);
    assert a[..to + n] == a[..to] + a[to..to + n];
  }

  /** `memcpy` from a read-only input into a buffer. */
  method Put(a: array<byte>, to: nat, s: seq<byte>)
    requires to + |s| <= a.Length
    modifies a
    ensures forall k :: to <= k < to + |s| ==> a[k] == s[k - to]
    ensures forall k :: 0 <= k < to || to + |s| <= k < a.Length ==> a[k] == old(a[k])
  {
    forall i | 0 <= i < |s| {
      a[to + i] := s[i];
    }
  }
}
