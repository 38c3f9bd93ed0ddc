/**
 * The Snappy stream format: its elements, a reference decoder that copies byte at a time, and the
 * exact relation between the two.
 */
module SnappyFormat {
  import opened Bytes
  import opened Match
  import opened Options

  const TWO32: nat := 0x1_0000_0000

  // ---- the length header ----

  /** The values that `room` more header bytes can hold: the last one carries four bits. */
  function VarintRange(room: nat): (n: nat)
    requires room >= 1
    ensures n >= 16 && (room >= 2 ==> n >= 128)
  {
    if room == 1 then 16 else 128 * VarintRange(room - 1)
  }

  /** Reads a base-128 number of at most `room` bytes, the last of them below 16: value and size. */
  function VarintAt(s: seq<byte>, room: nat): (r: Option<(nat, nat)>)
    requires room >= 1
    ensures r.Some? ==> r.value.0 < VarintRange(room) && 1 <= r.value.1 <= room && r.value.1 <= |s|
  {
    if s == [] then None
    else if room == 1 then if s[0] < 16 then Some((s[0], 1)) else None
    else if s[0] < 128 then Some((s[0], 1))
    else
      var r := VarintAt(s[1..], room - 1);
      if r.None? then None else Some((s[0] % 128 + 128 * r.value.0, r.value.1 + 1))
  }

  /** `snappy_read_varint`: five bytes at most, so that the value stays below 2^32. */
  function ReadVarint(s: seq<byte>): (r: Option<(nat, nat)>)
    ensures r.Some? ==> r.value.0 < TWO32 && 1 <= r.value.1 <= 5 && r.value.1 <= |s|
  {
    assert VarintRange(5) == 128 * (128 * VarintRange(3)) == TWO32;
    VarintAt(s, 5)
  }

  /** The base-128 digits of `v`, least significant first, all but the last marked with the high bit. */
  function Varint(v: nat): (s: seq<byte>)
    ensures |s| >= 1
  {
    if v < 128 then [v] else [v % 128 + 128] + Varint(v / 128)
  }

  lemma {:induction false} VarintAtInverse(v: nat, rest: seq<byte>, room: nat)
    requires room >= 1 && v < VarintRange(room)
    ensures |Varint(v)| <= room
    ensures VarintAt(Varint(v) + rest, room) == Some((v, |Varint(v)|))
  {
    if v < 128 {
    } else {
      VarintAtInverse(v / 128, rest, room - 1);
      var s := Varint(v) + rest;
      assert s[1..] == Varint(v / 128) + rest;
    }
  }

  lemma VarintRoundTrip(v: nat, rest: seq<byte>)
    requires v < TWO32
    ensures 1 <= |Varint(v)| <= 5
    ensures ReadVarint(Varint(v) + rest) == Some((v, |Varint(v)|))
  {
    assert VarintRange(5) == 128 * (128 * VarintRange(3)) == TWO32;
    VarintAtInverse(v, rest, 5);
  }

  /** The first `n` bytes are a number: all but the last have the high bit, and `room` bytes are the most. */
  predicate IsVarint(s: seq<byte>, n: nat, room: nat)
  {
    && 1 <= n <= room && n <= |s| && (forall k :: 0 <= k < n - 1 ==> s[k] >= 128) && s[n - 1] < 128
    && (n == room ==> s[n - 1] < 16)
  }

  /** The number: seven bits from each of the first `n` bytes, the first byte lowest. */
  function SevenBits(s: seq<byte>, n: nat): (v: nat)
    requires n <= |s|
  {
    if n == 0 then 0 else SevenBits(s, n - 1) + s[n - 1] % 128 * Pow2(7 * (n - 1))
  }

  lemma SevenMore(n: nat)
    ensures Pow2(7 * (n + 1)) == 128 * Pow2(7 * n)
  {
    var m := 7 * n;
    assert Pow2(m + 7) == 2 * Pow2(m + 6) == 4 * Pow2(m + 5) == 8 * Pow2(m + 4);
    assert Pow2(m + 4) == 2 * Pow2(m + 3) == 4 * Pow2(m + 2) == 8 * Pow2(m + 1);
  }

  lemma TimesSeven(b: nat, p: nat, q: nat)
    requires q == 128 * p
    ensures b * q == 128 * (b * p)
  {
  }

  lemma {:induction false} SevenBitsFirst(s: seq<byte>, n: nat)
    requires 1 <= n <= |s|
    ensures SevenBits(s, n) == s[0] % 128 + 128 * SevenBits(s[1..], n - 1)
    decreases n
  {
    if n == 1 {
      assert SevenBits(s, 0) == 0 && Pow2(0) == 1;
    } else {
      SevenBitsFirst(s, n - 1);
      SevenMore(n - 2);
      TimesSeven(s[n - 1] % 128, Pow2(7 * (n - 2)), Pow2(7 * (n - 1)));
    }
  }

  lemma {:induction false} VarintAtMeans(s: seq<byte>, room: nat, n: nat)
    requires room >= 1 && IsVarint(s, n, room)
    ensures VarintAt(s, room) == Some((SevenBits(s, n), n))
    decreases room
  {
    SevenBitsFirst(s, n);
    if n == 1 {
      assert SevenBits(s[1..], 0) == 0;
    } else {
      VarintAtMeans(s[1..], room - 1, n - 1);
    }
  }

  lemma {:induction false} VarintAtOnly(s: seq<byte>, room: nat)
    requires room >= 1 && VarintAt(s, room).Some?
    ensures IsVarint(s, VarintAt(s, room).value.1, room)
    decreases room
  {
    if room == 1 || s[0] < 128 {
    } else {
      VarintAtOnly(s[1..], room - 1);
      var n := VarintAt(s[1..], room - 1).value.1;
      assert forall k :: 1 <= k < n ==> s[k] == s[1..][k - 1];
    }
  }

  /** What a header means, from its bytes alone: the number it is, if it is one. */
  lemma HeaderMeans(s: seq<byte>)
    ensures forall n: nat :: IsVarint(s, n, 5) ==> ReadVarint(s) == Some((SevenBits(s, n), n))
    ensures ReadVarint(s).Some? ==> IsVarint(s, ReadVarint(s).value.1, 5)
  {
    forall n: nat | IsVarint(s, n, 5) ensures ReadVarint(s) == Some((SevenBits(s, n), n)) {
      VarintAtMeans(s, 5, n);
    }
    if ReadVarint(s).Some? {
      VarintAtOnly(s, 5);
    }
  }

  /** The header written for `v` is a number in that sense, it is `v`, and no shorter one is. */
  lemma HeaderWritten(v: nat)
    requires v < TWO32
    ensures IsVarint(Varint(v), |Varint(v)|, 5) && SevenBits(Varint(v), |Varint(v)|) == v
    ensures |Varint(v)| > 1 ==> v >= Pow2(7 * (|Varint(v)| - 1))
  {
    VarintRoundTrip(v, []);
    assert Varint(v) + [] == Varint(v);
    HeaderMeans(Varint(v));
    VarintIsShort(v);
  }

  lemma {:induction false} VarintIsShort(v: nat)
    ensures |Varint(v)| > 1 ==> v >= Pow2(7 * (|Varint(v)| - 1))
  {
    if v < 128 {
    } else {
      VarintIsShort(v / 128);
      SevenMore(|Varint(v / 128)| - 1);
    }
  }

  // ---- the format: elements and how they are written ----

  /**
   * One element of a stream. A literal carries its bytes and the number of bytes, 0 to 4, that
   * hold its length after the tag; copies come with an 11, 16 or 32 bit offset.
   */
  datatype Element =
    | Literal(lengthBytes: nat, bytes: seq<byte>)
    | Copy1(offset: nat, len: nat)
    | Copy2(offset: nat, len: nat)
    | Copy4(offset: nat, len: nat)

  predicate Legal(e: Element)
  {
    match e
    case Literal(x, b) => |b| >= 1 && x <= 4 && |b| <= (if x == 0 then 60 else Pow256(x))
    case Copy1(offset, len) => 4 <= len <= 11 && offset < 2048
    case Copy2(offset, len) => 1 <= len <= 64 && offset < 0x1_0000
    case Copy4(offset, len) => 1 <= len <= 64 && offset < TWO32
  }

  /** The bytes of a legal element, as format_description.txt lays them out. */
  function Write(e: Element): (s: seq<byte>)
  {
    match e
    case Literal(x, b) =>
      if x == 0 then [4 * (|b| - 1) % 256] + b else [4 * (59 + x) % 256] + ToLE(if b == [] then 0 else |b| - 1, x) + b
    case Copy1(offset, len) => [(1 + 4 * (len - 4) + 32 * (offset / 256)) % 256, offset % 256]
    case Copy2(offset, len) => [(2 + 4 * (len - 1)) % 256] + ToLE(offset, 2)
    case Copy4(offset, len) => [(3 + 4 * (len - 1)) % 256] + ToLE(offset, 4)
  }

  /** What an element appends to the output: its bytes, or a match copied byte at a time. */
  datatype Action = Bytes(bytes: seq<byte>) | Back(offset: nat, len: nat)

  function Meaning(e: Element): (a: Action)
  {
    match e
    case Literal(_, b) => Bytes(b)
    case Copy1(offset, len) => Back(offset, len)
    case Copy2(offset, len) => Back(offset, len)
    case Copy4(offset, len) => Back(offset, len)
  }

  predicate Applies(out: seq<byte>, a: Action)
  {
    a.Back? ==> 0 < a.offset <= |out|
  }

  function Apply(out: seq<byte>, a: Action): (r: seq<byte>)
    requires Applies(out, a)
  {
    match a
    case Bytes(b) => out + b
    case Back(offset, len) => CopyMatch(out, offset, len)
  }

  function Size(a: Action): (n: nat)
  {
    if a.Bytes? then |a.bytes| else a.len
  }

  lemma ApplySize(out: seq<byte>, a: Action)
    requires Applies(out, a)
    ensures |Apply(out, a)| == |out| + Size(a)
  {
    if a.Back? {
      CopyMatchRepeats(out, a.offset, a.len);
    }
  }

  // ---- streams of elements ----

  predicate LegalStream(es: seq<Element>)
  {
    forall i :: 0 <= i < |es| ==> Legal(es[i])
  }

  function WriteAll(es: seq<Element>): (s: seq<byte>)
  {
    Join(Write, es)
  }

  /** The output of a stream of elements started on `out`, if every back reference is in range. */
  function Execute(out: seq<byte>, es: seq<Element>): (r: Option<seq<byte>>)
    decreases |es|
  {
    if es == [] then Some(out)
    else if !Applies(out, Meaning(es[0])) then None
    else Execute(Apply(out, Meaning(es[0])), es[1..])
  }

  lemma {:induction false} ExecuteConcat(out: seq<byte>, es: seq<Element>, fs: seq<Element>)
    requires Execute(out, es).Some?
    ensures Execute(out, es + fs) == Execute(Execute(out, es).value, fs)
    decreases |es|
  {
    if es == [] {
      assert es + fs == fs;
    } else {
      ExecuteConcat(Apply(out, Meaning(es[0])), es[1..], fs);
      assert (es + fs)[1..] == es[1..] + fs;
    }
  }

  lemma {:induction false} ExecuteGrows(out: seq<byte>, es: seq<Element>)
    requires LegalStream(es) && Execute(out, es).Some?
    ensures |Execute(out, es).value| >= |out| + |es|
    decreases |es|
  {
    if es == [] {
    } else {
      ApplySize(out, Meaning(es[0]));
      ExecuteGrows(Apply(out, Meaning(es[0])), es[1..]);
    }
  }

  // ---- the reference decoder ----

  /**
   * Reads the element at the head of `s`: its action and its size in bytes. A four-byte literal
   * length is incremented in 32 bits, so that 0xFFFFFFFF stands for an empty literal.
   */
  function Parse(s: seq<byte>): (r: Option<(Action, nat)>)
    requires s != []
    ensures r.Some? ==> 1 <= r.value.1 <= |s|
  {
    var tag := s[0];
    if tag % 4 == 0 then
      var x := if tag / 4 >= 60 then tag / 4 - 59 else 0;
      if 1 + x > |s| then None
      else
        var len := if x == 0 then tag / 4 + 1 else (LE(s[1..1 + x]) + 1) % TWO32;
        if 1 + x + len > |s| then None
        else Some((Bytes(s[1 + x..1 + x + len]), 1 + x + len))
    else if tag % 4 == 1 then
      if |s| < 2 then None else Some((Back(tag / 32 * 256 + s[1], 4 + tag / 4 % 8), 2))
    else if tag % 4 == 2 then
      if |s| < 3 then None else Some((Back(LE(s[1..3]), tag / 4 + 1), 3))
    else
      if |s| < 5 then None else Some((Back(LE(s[1..5]), tag / 4 + 1), 5))
  }

  /** Decodes elements until the input or the declared length is used up; both must end together. */
  function Run(s: seq<byte>, out: seq<byte>, limit: nat): (r: Option<seq<byte>>)
    ensures r.Some? ==> |r.value| == limit
    decreases |s|
  {
    if s == [] || |out| >= limit then
      if s == [] && |out| == limit then Some(out) else None
    else
      var p := Parse(s);
      if p.None? || !Applies(out, p.value.0) || |out| + Size(p.value.0) > limit then None
      else Run(s[p.value.1..], Apply(out, p.value.0), limit)
  }

  /** The reference: what decompressing `s` into a buffer of `capacity` bytes must produce. */
  function Decode(s: seq<byte>, capacity: nat): (r: Option<seq<byte>>)
  {
    if s == [] then Some([])
    else
      var h := ReadVarint(s);
      if h.None? || h.value.0 > capacity then None
      else Run(s[h.value.1..], [], h.value.0)
  }

  // ---- the format and the reference decoder ----

  lemma ParseShortLiteral(b: seq<byte>, rest: seq<byte>)
    requires Legal(Literal(0, b))
    ensures Parse(Write(Literal(0, b)) + rest) == Some((Bytes(b), 1 + |b|))
  {
    var s := [4 * (|b| - 1)] + b + rest;
    assert Write(Literal(0, b)) + rest == s;
    assert s[1..1 + |b|] == b;
  }

  lemma ParseLengthBytes(s: seq<byte>, x: nat, len: nat)
    requires 1 <= x <= 4 && 1 <= len < TWO32 && 1 + x + len <= |s|
    requires s[0] == 4 * (59 + x) && LE(s[1..1 + x]) == len - 1
    ensures Parse(s) == Some((Bytes(s[1 + x..1 + x + len]), 1 + x + len))
  {
    assert s[0] / 4 == 59 + x && s[0] % 4 == 0;
  }

  lemma ParseLongLiteral(x: nat, b: seq<byte>, rest: seq<byte>)
    requires Legal(Literal(x, b)) && x > 0 && |b| < TWO32
    ensures Parse(Write(Literal(x, b)) + rest) == Some((Bytes(b), 1 + x + |b|))
  {
    var n := ToLE(|b| - 1, x);
    var s := [4 * (59 + x)] + n + b + rest;
    assert Write(Literal(x, b)) + rest == s;
    assert s[1..1 + x] == n;
    assert LE(n) == |b| - 1 by { LEToLE(|b| - 1, x); }
    ParseLengthBytes(s, x, |b|);
    assert s[1 + x..1 + x + |b|] == b;
  }

  lemma Copy1Tag(high: nat, len: nat)
    requires high < 8 && 4 <= len < 12
    ensures var tag := 1 + 4 * (len - 4) + 32 * high;
            tag < 256 && tag % 4 == 1 && tag / 32 == high && tag / 4 % 8 == len - 4
  {
  }

  lemma ParseCopy1(offset: nat, len: nat, rest: seq<byte>)
    requires Legal(Copy1(offset, len))
    ensures Parse(Write(Copy1(offset, len)) + rest) == Some((Back(offset, len), 2))
  {
    var high, low := offset / 256, offset % 256;
    assert offset == 256 * high + low;
    Copy1Tag(high, len);
    var s := [1 + 4 * (len - 4) + 32 * high, low] + rest;
    assert Write(Copy1(offset, len)) + rest == s;
    assert Parse(s) == Some((Back(256 * high + low, len), 2));
  }

  lemma ParseCopy2(offset: nat, len: nat, rest: seq<byte>)
    requires Legal(Copy2(offset, len))
    ensures Parse(Write(Copy2(offset, len)) + rest) == Some((Back(offset, len), 3))
  {
    var s := Write(Copy2(offset, len)) + rest;
    assert s[1..3] == ToLE(offset, 2);
    assert Pow256(2) == 0x1_0000;
    LEToLE(offset, 2);
  }

  lemma ParseCopy4(offset: nat, len: nat, rest: seq<byte>)
    requires Legal(Copy4(offset, len))
    ensures Parse(Write(Copy4(offset, len)) + rest) == Some((Back(offset, len), 5))
  {
    var s := Write(Copy4(offset, len)) + rest;
    assert s[1..5] == ToLE(offset, 4);
    assert Pow256(4) == 256 * Pow256(3) == TWO32;
    LEToLE(offset, 4);
  }

  /** The reference decoder reads back every legal element. */
  lemma ParseWrite(e: Element, rest: seq<byte>)
    requires Legal(e) && Size(Meaning(e)) < TWO32
    ensures Parse(Write(e) + rest) == Some((Meaning(e), |Write(e)|))
  {
    match e
    case Literal(x, b) => if x == 0 { ParseShortLiteral(b, rest); } else { ParseLongLiteral(x, b, rest); }
    case Copy1(offset, len) => ParseCopy1(offset, len, rest);
    case Copy2(offset, len) => ParseCopy2(offset, len, rest);
    case Copy4(offset, len) => ParseCopy4(offset, len, rest);
  }

  /**
   * Every stream of the format is accepted: whatever its elements, the reference decoder returns
   * their execution, provided the declared length is the one they produce.
   */
  lemma {:induction false} RunWriteAll(es: seq<Element>, out: seq<byte>, limit: nat)
    requires LegalStream(es) && limit < TWO32
    requires Execute(out, es).Some? && |Execute(out, es).value| == limit
    ensures Run(WriteAll(es), out, limit) == Execute(out, es)
    decreases |es|
  {
    if es == [] {
    } else {
      var a := Meaning(es[0]);
      var out' := Apply(out, a);
      ApplySize(out, a);
      ExecuteGrows(out', es[1..]);
      var rest := WriteAll(es[1..]);
      ParseWrite(es[0], rest);
      assert WriteAll(es) == Write(es[0]) + rest;
      assert (Write(es[0]) + rest)[|Write(es[0])|..] == rest;
      RunWriteAll(es[1..], out', limit);
    }
  }

  /** A literal whose four length bytes are all 0xFF stands at the head of `s`. */
  predicate WrapsHere(s: seq<byte>)
  {
    |s| >= 5 && s[0] == 252 && s[1..5] == [255, 255, 255, 255]
  }

  /** Some element of the stream is such a literal. */
  predicate Wraps(s: seq<byte>)
    decreases |s|
  {
    s != [] && (WrapsHere(s) || (Parse(s).Some? && Wraps(s[Parse(s).value.1..])))
  }

  lemma UnparseShortLiteral(s: seq<byte>) returns (e: Element)
    requires s != [] && s[0] % 4 == 0 && s[0] / 4 < 60 && 2 + s[0] / 4 <= |s|
    ensures Legal(e) && Meaning(e) == Bytes(s[1..2 + s[0] / 4])
    ensures Write(e) == s[..2 + s[0] / 4]
  {
    var n := s[0] / 4;
    e := Literal(0, s[1..2 + n]);
    assert 4 * n == s[0];
    assert [s[0]] + s[1..2 + n] == s[..2 + n];
  }

  lemma ThreeParts(s: seq<byte>, i: nat, j: nat)
    requires 1 <= i <= j <= |s|
    ensures [s[0]] + s[1..i] + s[i..j] == s[..j]
  {
  }

  lemma UnparseLongLiteral(s: seq<byte>, x: nat) returns (e: Element)
    requires 1 <= x <= 4 && |s| >= 1 + x && s[0] == 4 * (59 + x) && !WrapsHere(s)
    requires 1 + x + LE(s[1..1 + x]) + 1 <= |s|
    ensures Legal(e) && Meaning(e) == Bytes(s[1 + x..2 + x + LE(s[1..1 + x])])
    ensures Write(e) == s[..2 + x + LE(s[1..1 + x])]
  {
    var n := s[1..1 + x];
    var len := LE(n) + 1;
    var b := s[1 + x..1 + x + len];
    NoWrap(s, x);
    e := Literal(x, b);
    ToLELE(n);
    ThreeParts(s, 1 + x, 1 + x + len);
  }

  lemma UnparseCopy1(s: seq<byte>, tag: int) returns (e: Element)
    requires |s| >= 2 && s[0] == tag && tag % 4 == 1
    ensures Legal(e) && Meaning(e) == Back(tag / 32 * 256 + s[1], 4 + tag / 4 % 8)
    ensures Write(e) == s[..2]
  {
    var high, l := tag / 32, tag / 4 % 8;
    Copy1Parts(tag, s[1]);
    e := Copy1(high * 256 + s[1], l + 4);
  }

  lemma Copy1Parts(tag: int, low: int)
    requires 0 <= tag < 256 && tag % 4 == 1 && 0 <= low < 256
    ensures tag == 1 + 4 * (tag / 4 % 8) + 32 * (tag / 32) && tag / 32 < 8
    ensures (tag / 32 * 256 + low) / 256 == tag / 32 && (tag / 32 * 256 + low) % 256 == low
  {
  }

  lemma UnparseCopy2(s: seq<byte>) returns (e: Element)
    requires |s| >= 3 && s[0] % 4 == 2
    ensures Legal(e) && Meaning(e) == Back(LE(s[1..3]), s[0] / 4 + 1)
    ensures Write(e) == s[..3]
  {
    e := Copy2(LE(s[1..3]), s[0] / 4 + 1);
    assert Pow256(2) == 0x1_0000;
    LEBound(s[1..3]);
    assert ToLE(LE(s[1..3]), 2) == s[1..3] by { ToLELE(s[1..3]); }
    assert [s[0]] + s[1..3] == s[..3];
  }

  lemma UnparseCopy4(s: seq<byte>) returns (e: Element)
    requires |s| >= 5 && s[0] % 4 == 3
    ensures Legal(e) && Meaning(e) == Back(LE(s[1..5]), s[0] / 4 + 1)
    ensures Write(e) == s[..5]
  {
    e := Copy4(LE(s[1..5]), s[0] / 4 + 1);
    assert Pow256(4) == 256 * Pow256(3) == TWO32;
    LEBound(s[1..5]);
    assert ToLE(LE(s[1..5]), 4) == s[1..5] by { ToLELE(s[1..5]); }
    assert [s[0]] + s[1..5] == s[..5];
  }

  lemma SmallWord(n: nat)
    requires n < TWO32
    ensures n % TWO32 == n
  {
  }

  lemma UnparseLiteral(s: seq<byte>) returns (e: Element)
    requires s != [] && s[0] % 4 == 0 && Parse(s).Some? && !WrapsHere(s)
    ensures Legal(e) && Meaning(e) == Parse(s).value.0
    ensures Write(e) == s[..Parse(s).value.1]
  {
    if s[0] / 4 < 60 {
      e := UnparseShortLiteral(s);
    } else {
      var x := s[0] / 4 - 59;
      assert s[0] == 4 * (59 + x);
      NoWrap(s, x);
      SmallWord(LE(s[1..1 + x]) + 1);
      e := UnparseLongLiteral(s, x);
    }
  }

  /** Recovers the element that `Parse` read, unless its length wrapped. */
  lemma Unparse(s: seq<byte>) returns (e: Element)
    requires s != [] && Parse(s).Some? && !WrapsHere(s)
    ensures Legal(e) && Meaning(e) == Parse(s).value.0
    ensures Write(e) == s[..Parse(s).value.1]
  {
    if s[0] % 4 == 0 {
      e := UnparseLiteral(s);
    } else if s[0] % 4 == 1 {
      e := UnparseCopy1(s, s[0]);
    } else if s[0] % 4 == 2 {
      e := UnparseCopy2(s);
    } else {
      e := UnparseCopy4(s);
    }
  }

  lemma TopWord()
    ensures LE([255, 255, 255, 255]) == TWO32 - 1
  {
    LEConcat1(255, []);
    LEConcat1(255, [255]);
    LEConcat1(255, [255, 255]);
    LEConcat1(255, [255, 255, 255]);
    assert [255] + [] == [255] && [255] + [255] == [255, 255];
    assert [255] + [255, 255] == [255, 255, 255] && [255] + [255, 255, 255] == [255, 255, 255, 255];
  }

  lemma NoWrap(s: seq<byte>, x: nat)
    requires 1 <= x <= 4 && |s| >= 1 + x && s[0] == 4 * (59 + x) && !WrapsHere(s)
    ensures LE(s[1..1 + x]) + 1 <= Pow256(x)
    ensures LE(s[1..1 + x]) + 1 < TWO32
  {
    var n := s[1..1 + x];
    LEBound(n);
    assert Pow256(4) == 256 * Pow256(3) == TWO32;
    if x == 4 {
      TopWord();
      if LE(n) == TWO32 - 1 {
        LEInjective(n, [255, 255, 255, 255]);
        assert false;
      }
    } else {
      assert Pow256(3) == 256 * Pow256(2) && Pow256(2) == 0x1_0000;
    }
  }

  lemma {:induction false} RunUnparse(s: seq<byte>, out: seq<byte>, limit: nat) returns (es: seq<Element>)
    requires Run(s, out, limit).Some? && !Wraps(s)
    ensures LegalStream(es) && WriteAll(es) == s
    ensures Execute(out, es) == Run(s, out, limit)
    decreases |s|
  {
    if s == [] {
      es := [];
    } else {
      var n := Parse(s).value.1;
      var e := Unparse(s);
      var fs := RunUnparse(s[n..], Apply(out, Meaning(e)), limit);
      es := [e] + fs;
      assert es[1..] == fs;
      assert WriteAll(es) == Write(e) + WriteAll(fs) == s[..n] + s[n..] == s;
    }
  }

  lemma WriteWraps(e: Element, rest: seq<byte>)
    requires Legal(e) && Size(Meaning(e)) < TWO32
    ensures !WrapsHere(Write(e) + rest)
  {
    if e.Literal? && e.lengthBytes == 4 {
      var n := ToLE(|e.bytes| - 1, 4);
      LEToLE(|e.bytes| - 1, 4);
      TopWord();
      assert n != [255, 255, 255, 255];
      assert (Write(e) + rest)[1..5] == n;
    }
  }

  lemma {:induction false} WriteAllNeverWraps(es: seq<Element>, out: seq<byte>)
    requires LegalStream(es) && Execute(out, es).Some? && |Execute(out, es).value| < TWO32
    ensures !Wraps(WriteAll(es))
    decreases |es|
  {
    if es == [] {
    } else {
      var out' := Apply(out, Meaning(es[0]));
      ApplySize(out, Meaning(es[0]));
      ExecuteGrows(out', es[1..]);
      var rest := WriteAll(es[1..]);
      assert WriteAll(es) == Write(es[0]) + rest;
      WriteWraps(es[0], rest);
      ParseWrite(es[0], rest);
      assert (Write(es[0]) + rest)[|Write(es[0])|..] == rest;
      WriteAllNeverWraps(es[1..], out');
    }
  }

  /** `s` is a stream of the format whose elements produce `r`. */
  ghost predicate IsStreamFor(s: seq<byte>, r: seq<byte>)
  {
    exists es :: LegalStream(es) && WriteAll(es) == s && Execute([], es) == Some(r)
  }

  /**
   * The decoder accepts exactly the streams of the format, except that it also accepts some
   * streams in which a literal length wraps.
   */
  lemma AcceptsExactlyFormat(s: seq<byte>, limit: nat, r: seq<byte>)
    requires limit < TWO32
    ensures (Run(s, [], limit) == Some(r) && !Wraps(s)) <==> (IsStreamFor(s, r) && |r| == limit)
  {
    if Run(s, [], limit) == Some(r) && !Wraps(s) {
      var es := RunUnparse(s, [], limit);
    }
    if IsStreamFor(s, r) && |r| == limit {
      var es :| LegalStream(es) && WriteAll(es) == s && Execute([], es) == Some(r);
      RunWriteAll(es, [], limit);
      WriteAllNeverWraps(es, []);
    }
  }

  /** A literal whose length wraps is skipped: it contributes nothing, wherever it stands. */
  lemma WrappedLiteralIsSkipped(s: seq<byte>, out: seq<byte>, limit: nat)
    requires WrapsHere(s) && |out| < limit
    ensures Run(s, out, limit) == Run(s[5..], out, limit)
  {
    TopWord();
    assert s[5..5] == [];
    assert Parse(s) == Some((Bytes([]), 5));
    assert out + [] == out;
  }

  lemma RunOneByte(b: byte)
    ensures Run([0, b], [], 1) == Some([b])
  {
    var e := Literal(0, [b]);
    assert Write(e) == [0, b];
    assert WriteAll([e]) == Write(e) + WriteAll([e][1..]) == [0, b];
    assert [] + [b] == [b];
    assert Execute([], [e]) == Execute([b], [e][1..]) == Some([b]);
    RunWriteAll([e], [], 1);
  }

  /** The stream of "a": a length of one, a literal of one byte. */
  lemma OneByteStream()
    ensures Decode([1, 0, 97], 1) == Some([97]) && Decode([1, 0, 97], 0) == None && Decode([], 0) == Some([])
  {
    var s: seq<byte> := [1, 0, 97];
    assert IsVarint(s, 1, 5) && SevenBits(s, 1) == 1 by {
      assert SevenBits(s, 0) == 0 && Pow2(0) == 1;
    }
    HeaderMeans(s);
    RunOneByte(97);
    assert s[1..] == [0, 97];
  }

  /** Literals, with their length in the tag, in one byte and in two. */
  lemma LiteralExamples()
    ensures Parse([8, 97, 98, 99]) == Some((Bytes([97, 98, 99]), 4))
    ensures Parse([240, 1, 97, 98]) == Some((Bytes([97, 98]), 4))
    ensures Parse([244, 1, 0, 97, 98]) == Some((Bytes([97, 98]), 5))
  {
    var a: seq<byte>, b: seq<byte>, c: seq<byte> := [8, 97, 98, 99], [240, 1, 97, 98], [244, 1, 0, 97, 98];
    LEOfTwo(c[1..3]);
    assert LE(b[1..2]) == 1;
    assert a[1..4] == [97, 98, 99] && b[2..4] == [97, 98] && c[3..5] == [97, 98];
  }

  /** Copies with offsets of 11, 16 and 32 bits. */
  lemma CopyExamples()
    ensures Parse([0x25, 0x34]) == Some((Back(0x134, 5), 2))
    ensures Parse([0x12, 0x34, 0x12]) == Some((Back(0x1234, 5), 3))
    ensures Parse([0x13, 0x78, 0x56, 0x34, 0x12]) == Some((Back(0x1234_5678, 5), 5))
  {
    var d: seq<byte>, e: seq<byte> := [0x12, 0x34, 0x12], [0x13, 0x78, 0x56, 0x34, 0x12];
    LEOfTwo(d[1..3]);
    LEOfFour(e[1..5]);
  }

  /** So the accepted language is larger than the format: an empty wrapped literal, then "a". */
  lemma WrappedStreamAccepted()
    ensures Run([252, 255, 255, 255, 255, 0, 97], [], 1) == Some([97])
    ensures !IsStreamFor([252, 255, 255, 255, 255, 0, 97], [97])
  {
    var s: seq<byte> := [252, 255, 255, 255, 255, 0, 97];
    assert s[1..5] == [255, 255, 255, 255] && s[5..] == [0, 97];
    WrappedLiteralIsSkipped(s, [], 1);
    RunOneByte(97);
    AcceptsExactlyFormat(s, 1, [97]);
  }
}
