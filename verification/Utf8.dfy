/** qio's UTF-8 validator, with and without its eight-byte ASCII skip, against RFC 3629. */
module Utf8 {
  import opened Bytes

  // ---- section 4 of RFC 3629 ----

  predicate Tail(b: byte)
  {
    0x80 <= b <= 0xBF
  }

  /** The second byte that a lead byte of three or four allows; all further ones are plain tails. */
  predicate Second(lead: byte, b: byte)
  {
    if lead == 0xE0 then 0xA0 <= b <= 0xBF
    else if lead == 0xED then 0x80 <= b <= 0x9F
    else if lead == 0xF0 then 0x90 <= b <= 0xBF
    else if lead == 0xF4 then 0x80 <= b <= 0x8F
    else Tail(b)
  }

  /** One character: UTF8-1, UTF8-2, UTF8-3 or UTF8-4 of the grammar. */
  predicate IsChar(c: seq<byte>)
  {
    || (|c| == 1 && c[0] <= 0x7F)
    || (|c| == 2 && 0xC2 <= c[0] <= 0xDF && Tail(c[1]))
    || (|c| == 3 && 0xE0 <= c[0] <= 0xEF && Second(c[0], c[1]) && Tail(c[2]))
    || (|c| == 4 && 0xF0 <= c[0] <= 0xF4 && Second(c[0], c[1]) && Tail(c[2]) && Tail(c[3]))
  }

  /** The code points that are characters: up to U+10FFFF, without the surrogates. */
  predicate Scalar(v: nat)
  {
    v <= 0x10_FFFF && !(0xD800 <= v <= 0xDFFF)
  }

  /** Section 3 of RFC 3629: the bits of a code point, six to a tail, in as few bytes as hold them. */
  function Encode(v: nat): (c: seq<byte>)
    requires Scalar(v)
  {
    if v < 0x80 then [v]
    else if v < 0x800 then [0xC0 + v / 0x40, 0x80 + v % 0x40]
    else if v < 0x1_0000 then [0xE0 + v / 0x1000, 0x80 + v / 0x40 % 0x40, 0x80 + v % 0x40]
    else [0xF0 + v / 0x4_0000, 0x80 + v / 0x1000 % 0x40, 0x80 + v / 0x40 % 0x40, 0x80 + v % 0x40]
  }

  lemma EncodeIsChar(v: nat)
    requires Scalar(v)
    ensures IsChar(Encode(v))
  {
  }

  /** The code point of a character. */
  function CodePoint(c: seq<byte>): (v: nat)
    requires IsChar(c)
  {
    if |c| == 1 then c[0]
    else if |c| == 2 then (c[0] as int - 0xC0) * 0x40 + (c[1] as int - 0x80)
    else if |c| == 3 then (c[0] as int - 0xE0) * 0x1000 + (c[1] as int - 0x80) * 0x40 + (c[2] as int - 0x80)
    else
      (c[0] as int - 0xF0) * 0x4_0000 + (c[1] as int - 0x80) * 0x1000 + (c[2] as int - 0x80) * 0x40
      + (c[3] as int - 0x80)
  }

  /** The byte ranges of the grammar admit exactly the encoded code points. */
  lemma GrammarIsEncoding(c: seq<byte>)
    ensures IsChar(c) ==> Scalar(CodePoint(c)) && Encode(CodePoint(c)) == c
    ensures IsChar(c) <==> exists v: nat :: Scalar(v) && Encode(v) == c
  {
    if IsChar(c) {
      EncodeCodePoint(c);
    }
    if v: nat :| Scalar(v) && Encode(v) == c {
      EncodeIsChar(v);
    }
  }

  lemma EncodeCodePoint(c: seq<byte>)
    requires IsChar(c)
    ensures Scalar(CodePoint(c)) && Encode(CodePoint(c)) == c
  {
    if |c| == 2 {
      EncodeTwo(c);
    } else if |c| == 3 {
      EncodeThree(c);
    } else if |c| == 4 {
      EncodeFour(c);
    }
  }

  lemma TwoDigits(v: nat, a: nat, b: nat)
    requires b < 0x40 && v == a * 0x40 + b
    ensures v / 0x40 == a && v % 0x40 == b
  {
  }

  lemma EncodeTwo(c: seq<byte>)
    requires IsChar(c) && |c| == 2
    ensures Scalar(CodePoint(c)) && Encode(CodePoint(c)) == c
  {
    TwoDigits(CodePoint(c), c[0] as int - 0xC0, c[1] as int - 0x80);
  }

  lemma ThreeDigits(v: nat, a: nat, b: nat, d: nat)
    requires b < 0x40 && d < 0x40 && v == a * 0x1000 + b * 0x40 + d
    ensures v / 0x1000 == a && v / 0x40 % 0x40 == b && v % 0x40 == d && v / 0x40 == a * 0x40 + b
  {
    TwoDigits(v, a * 0x40 + b, d);
    TwoDigits(a * 0x40 + b, a, b);
  }

  lemma EncodeThree(c: seq<byte>)
    requires IsChar(c) && |c| == 3
    ensures Scalar(CodePoint(c)) && Encode(CodePoint(c)) == c
  {
    ThreeDigits(CodePoint(c), c[0] as int - 0xE0, c[1] as int - 0x80, c[2] as int - 0x80);
  }

  lemma FourDigits(v: nat, a: nat, b: nat, d: nat, e: nat)
    requires b < 0x40 && d < 0x40 && e < 0x40 && v == a * 0x4_0000 + b * 0x1000 + d * 0x40 + e
    ensures v / 0x4_0000 == a && v / 0x1000 % 0x40 == b && v / 0x40 % 0x40 == d && v % 0x40 == e
  {
    ThreeDigits(v, a * 0x40 + b, d, e);
    TwoDigits(a * 0x40 + b, a, b);
  }

  lemma EncodeFour(c: seq<byte>)
    requires IsChar(c) && |c| == 4
    ensures Scalar(CodePoint(c)) && Encode(CodePoint(c)) == c
  {
    FourDigits(CodePoint(c), c[0] as int - 0xF0, c[1] as int - 0x80, c[2] as int - 0x80, c[3] as int - 0x80);
  }

  /** A concatenation of characters. */
  ghost predicate IsText(s: seq<byte>)
    decreases |s|
  {
    s == [] || exists n :: 1 <= n <= |s| && IsChar(s[..n]) && IsText(s[n..])
  }

  // ---- the longest well-formed prefix ----

  /** The size of the character at the head of `s`, or 0. */
  function CharSize(s: seq<byte>): (n: nat)
    ensures n <= 4 && n <= |s|
    ensures n > 0 ==> IsChar(s[..n])
  {
    if |s| >= 1 && IsChar(s[..1]) then 1
    else if |s| >= 2 && IsChar(s[..2]) then 2
    else if |s| >= 3 && IsChar(s[..3]) then 3
    else if |s| >= 4 && IsChar(s[..4]) then 4
    else 0
  }

  /** No character is a prefix of another. */
  lemma CharSizeUnique(s: seq<byte>, n: nat)
    requires n <= |s| && IsChar(s[..n])
    ensures CharSize(s) == n
  {
    assert s[..n][0] == s[0];
    assert |s| >= 1 ==> s[..1][0] == s[0];
    assert |s| >= 2 ==> s[..2][0] == s[0];
    assert |s| >= 3 ==> s[..3][0] == s[0];
    assert |s| >= 4 ==> s[..4][0] == s[0];
  }

  function TextPrefix(s: seq<byte>): (n: nat)
    ensures n <= |s|
    decreases |s|
  {
    if CharSize(s) == 0 then 0 else CharSize(s) + TextPrefix(s[CharSize(s)..])
  }

  lemma {:induction false} TextPrefixIsText(s: seq<byte>)
    ensures IsText(s[..TextPrefix(s)])
    decreases |s|
  {
    var n := CharSize(s);
    if n == 0 {
    } else {
      TextPrefixIsText(s[n..]);
      SliceOfSlice(s, TextPrefix(s), n);
    }
  }

  lemma {:induction false} TextPrefixIsLongest(s: seq<byte>, p: nat)
    requires p <= |s| && IsText(s[..p])
    ensures p <= TextPrefix(s)
    decreases |s|
  {
    if p == 0 {
    } else {
      var t := s[..p];
      var n :| 1 <= n <= |t| && IsChar(t[..n]) && IsText(t[n..]);
      SliceOfSlice(s, p, n);
      CharSizeUnique(s, n);
      TextPrefixIsLongest(s[n..], p - n);
    }
  }

  /** What both validators return: 0 for text, else one more than the longest well-formed prefix. */
  ghost function Verdict(s: seq<byte>): (r: nat)
  {
    if IsText(s) then 0 else 1 + TextPrefix(s)
  }

  lemma VerdictOfPrefix(s: seq<byte>)
    ensures IsText(s) <==> TextPrefix(s) == |s|
  {
    assert s[..|s|] == s;
    TextPrefixIsText(s);
    if IsText(s) {
      TextPrefixIsLongest(s, |s|);
    }
  }

  /** Behind a well-formed prefix the rest of the longest one follows. */
  lemma {:induction false} PrefixGoesOn(s: seq<byte>, i: nat)
    requires i <= |s| && IsText(s[..i])
    ensures TextPrefix(s) == i + TextPrefix(s[i..])
    decreases |s|
  {
    if i == 0 {
      assert s[0..] == s;
    } else {
      var t := s[..i];
      var n :| 1 <= n <= |t| && IsChar(t[..n]) && IsText(t[n..]);
      SliceOfSlice(s, i, n);
      CharSizeUnique(s, n);
      PrefixGoesOn(s[n..], i - n);
    }
  }

  lemma CharThenText(c: seq<byte>, t: seq<byte>)
    requires IsChar(c) && IsText(t)
    ensures IsText(c + t)
  {
    var s, n := c + t, |c|;
    assert s[..n] == c && s[n..] == t;
  }

  lemma FirstChar(t: seq<byte>) returns (h: seq<byte>, r: seq<byte>)
    requires IsText(t) && t != []
    ensures IsChar(h) && IsText(r) && t == h + r && |r| < |t|
  {
    var n :| 1 <= n <= |t| && IsChar(t[..n]) && IsText(t[n..]);
    h, r := t[..n], t[n..];
  }

  /** One more character keeps a prefix well formed. */
  lemma {:induction false} TextThenChar(t: seq<byte>, c: seq<byte>)
    requires IsText(t) && IsChar(c)
    ensures IsText(t + c)
    decreases |t|
  {
    if t == [] {
      assert t + c == c + [];
      CharThenText(c, t);
    } else {
      var h, r := FirstChar(t);
      TextThenChar(r, c);
      CharThenText(h, r + c);
      ConcatAssociates(h, r, c);
    }
  }

  lemma Advance(s: seq<byte>, i: nat, j: nat)
    requires i <= j <= |s| && IsText(s[..i]) && IsChar(s[i..j])
    ensures IsText(s[..j])
  {
    TextThenChar(s[..i], s[i..j]);
    assert s[..i] + s[i..j] == s[..j];
  }

  /** Where no character follows a well-formed prefix, the verdict is that position. */
  lemma Stuck(s: seq<byte>, i: nat)
    requires i < |s| && IsText(s[..i]) && CharSize(s[i..]) == 0
    ensures Verdict(s) == i + 1
  {
    PrefixGoesOn(s, i);
    VerdictOfPrefix(s);
  }

  lemma Finished(s: seq<byte>)
    requires IsText(s[..|s|])
    ensures Verdict(s) == 0
  {
    assert s[..|s|] == s;
  }

  // ---- one character, as the code decodes it ----

  /** How many continuation bytes the lead byte announces, and the bits it contributes. */
  method LeadByte(b: byte) returns (ok: bool, extra: nat, code: nat)
    requires b >= 0x80
    ensures ok <==> 0xC0 <= b <= 0xF7
    ensures ok ==> extra == (if b <= 0xDF then 1 else if b <= 0xEF then 2 else 3)
    ensures ok ==> code == b - (if b <= 0xDF then 0xC0 else if b <= 0xEF then 0xE0 else 0xF0)
  {
    if b / 32 == 6 {
      return true, 1, b % 32;
    } else if b / 16 == 14 {
      return true, 2, b % 16;
    } else if b / 8 == 30 {
      return true, 3, b % 8;
    }
    return false, 0, 0;
  }

  /** Base-64 value of continuation bytes on top of `code`. */
  function Shifted(code: nat, s: seq<byte>): (v: nat)
  {
    if s == [] then code else Shifted(code, s[..|s| - 1]) * 64 + s[|s| - 1] % 64
  }

  method Continuations(s: seq<byte>, i: nat, extra: nat, code: nat) returns (ok: bool, v: nat)
    requires i + extra < |s|
    ensures ok <==> forall k :: i + 1 <= k <= i + extra ==> Tail(s[k])
    ensures ok ==> v == Shifted(code, s[i + 1..i + 1 + extra])
  {
    v := code;
    assert s[i + 1..i + 1] == [];
    for k := 1 to extra + 1
      invariant forall j :: i + 1 <= j < i + k ==> Tail(s[j])
      invariant v == Shifted(code, s[i + 1..i + k])
    {
      var cont := s[i + k];
      if cont / 64 != 2 {
        return false, v;
      }
      assert s[i + 1..i + k + 1] == s[i + 1..i + k] + [cont];
      v := v * 64 + cont % 64;
    }
    ok := true;
  }

  /** The code point tests, overlong forms, surrogates and range, are exactly the grammar's byte ranges. */
  lemma RangesAreGrammar(c: seq<byte>, code: nat)
    requires 2 <= |c| <= 4 && 0xC0 <= c[0] <= 0xF7
    requires |c| == (if c[0] <= 0xDF then 2 else if c[0] <= 0xEF then 3 else 4)
    requires forall k :: 1 <= k < |c| ==> Tail(c[k])
    requires code == c[0] - (if c[0] <= 0xDF then 0xC0 else if c[0] <= 0xEF then 0xE0 else 0xF0)
    ensures var v := Shifted(code, c[1..]);
            var overlong := (|c| == 2 && v < 0x80) || (|c| == 3 && v < 0x800) || (|c| == 4 && v < 0x1_0000);
            !overlong && v <= 0x10_FFFF && !(0xD800 <= v <= 0xDFFF) <==> IsChar(c)
  {
    var t := c[1..];
    if |c| == 2 {
      ShiftedByOne(code, t);
    } else if |c| == 3 {
      ShiftedByTwo(code, t);
    } else {
      ShiftedByThree(code, t);
    }
  }

  lemma ShiftedByOne(code: nat, t: seq<byte>)
    requires |t| == 1
    ensures Shifted(code, t) == code * 64 + t[0] % 64
  {
    assert t[..0] == [];
  }

  lemma ShiftedByTwo(code: nat, t: seq<byte>)
    requires |t| == 2
    ensures Shifted(code, t) == (code * 64 + t[0] % 64) * 64 + t[1] % 64
  {
    ShiftedByOne(code, t[..1]);
  }

  lemma ShiftedByThree(code: nat, t: seq<byte>)
    requires |t| == 3
    ensures Shifted(code, t) == ((code * 64 + t[0] % 64) * 64 + t[1] % 64) * 64 + t[2] % 64
  {
    ShiftedByTwo(code, t[..2]);
  }

  /** The decode step that both validators share, at a byte that is not ASCII. */
  method ScanChar(s: seq<byte>, i: nat) returns (ok: bool, next: nat)
    requires i < |s| && s[i] >= 0x80 && IsText(s[..i])
    ensures ok ==> i < next <= |s| && IsText(s[..next])
    ensures !ok ==> Verdict(s) == i + 1
  {
    ok, next := DecodeChar(s, i);
    if ok {
      Advance(s, i, next);
    } else {
      Stuck(s, i);
    }
  }

  method DecodeChar(s: seq<byte>, i: nat) returns (ok: bool, next: nat)
    requires i < |s| && s[i] >= 0x80
    ensures ok ==> i < next <= |s| && IsChar(s[i..next])
    ensures !ok ==> CharSize(s[i..]) == 0
  {
    next := i;
    var lead, extra, code := LeadByte(s[i]);
    if !lead {
      NoChar(s[i..]);
      return false, i;
    }
    if i + extra >= |s| {
      NoChar(s[i..]);
      return false, i;
    }
    var tails, v := Continuations(s, i, extra, code);
    ghost var c := s[i..i + extra + 1];
    assert c == s[i..][..extra + 1] && c[1..] == s[i + 1..i + 1 + extra];
    if !tails {
      BadTail(s, i, extra);
      return false, i;
    }
    RangesAreGrammar(c, code);
    if (extra == 1 && v < 0x80) || (extra == 2 && v < 0x800) || (extra == 3 && v < 0x1_0000) {
      NotThisChar(s[i..], extra + 1);
      return false, i;
    }
    if v > 0x10_FFFF || (v >= 0xD800 && v <= 0xDFFF) {
      NotThisChar(s[i..], extra + 1);
      return false, i;
    }
    return true, i + extra + 1;
  }

  /** The lead byte alone decides how long a character can be. */
  lemma LeadDecides(s: seq<byte>)
    requires CharSize(s) > 0 && s[0] >= 0x80
    ensures 0xC2 <= s[0] <= 0xF4
    ensures CharSize(s) == if s[0] <= 0xDF then 2 else if s[0] <= 0xEF then 3 else 4
  {
    var c := s[..CharSize(s)];
    assert IsChar(c) && c[0] == s[0];
  }

  lemma NoChar(s: seq<byte>)
    requires s != [] && s[0] >= 0x80
    requires 0xC0 <= s[0] <= 0xF7 ==> |s| < (if s[0] <= 0xDF then 2 else if s[0] <= 0xEF then 3 else 4)
    ensures CharSize(s) == 0
  {
    if CharSize(s) > 0 {
      LeadDecides(s);
    }
  }

  lemma NotThisChar(s: seq<byte>, n: nat)
    requires n <= |s| && s != [] && s[0] >= 0x80 && !IsChar(s[..n])
    requires n == if s[0] <= 0xDF then 2 else if s[0] <= 0xEF then 3 else 4
    ensures CharSize(s) == 0
  {
    if CharSize(s) > 0 {
      LeadDecides(s);
    }
  }

  lemma BadTail(s: seq<byte>, i: nat, extra: nat)
    requires i + extra < |s| && 0xC0 <= s[i] <= 0xF7
    requires extra == if s[i] <= 0xDF then 1 else if s[i] <= 0xEF then 2 else 3
    requires exists k :: i + 1 <= k <= i + extra && !Tail(s[k])
    ensures CharSize(s[i..]) == 0
  {
    var k :| i + 1 <= k <= i + extra && !Tail(s[k]);
    var c := s[i..][..extra + 1];
    assert c[0] == s[i] && c[k - i] == s[k];
    NotThisChar(s[i..], extra + 1);
  }

  // ---- the two validators ----

  /** The byte-at-a-time reference. */
  method Reference(s: seq<byte>) returns (r: nat)
    ensures r == Verdict(s)
  {
    var i := 0;
    while i < |s|
      invariant i <= |s| && IsText(s[..i])
    {
      if s[i] < 0x80 {
        AsciiStep(s, i);
        i := i + 1;
      } else {
        var ok, next := ScanChar(s, i);
        if !ok {
          return i + 1;
        }
        i := next;
      }
    }
    Finished(s);
    return 0;
  }

  lemma AsciiStep(s: seq<byte>, i: nat)
    requires i < |s| && s[i] < 0x80 && IsText(s[..i])
    ensures IsText(s[..i + 1])
  {
    assert s[i..i + 1] == [s[i]];
    Advance(s, i, i + 1);
  }

  /** Whether any of the `n` low bytes of a word has its high bit set: `word & 0x8080...80`. */
  predicate HighBits(word: nat, n: nat)
  {
    n > 0 && (word % 256 >= 128 || HighBits(word / 256, n - 1))
  }

  lemma {:induction false} HighBitsOfBytes(s: seq<byte>)
    ensures HighBits(LE(s), |s|) <==> exists k :: 0 <= k < |s| && s[k] >= 0x80
  {
    if s == [] {
    } else {
      LEStep(s);
      HighBitsOfBytes(s[1..]);
      if k :| 0 <= k < |s[1..]| && s[1..][k] >= 0x80 {
        assert s[k + 1] >= 0x80;
      }
      if k :| 1 <= k < |s| && s[k] >= 0x80 {
        assert s[1..][k - 1] >= 0x80;
      }
    }
  }

  lemma {:induction false} AsciiRun(s: seq<byte>, i: nat, j: nat)
    requires i <= j <= |s| && IsText(s[..i]) && forall k :: i <= k < j ==> s[k] < 0x80
    ensures IsText(s[..j])
    decreases j - i
  {
    if i == j {
    } else {
      AsciiStep(s, i);
      AsciiRun(s, i + 1, j);
    }
  }

  /** `qio_skip_ascii`: skips whole words of ASCII, up to the first that is not or the last 7 bytes. */
  method SkipAscii(s: seq<byte>, start: nat) returns (i: nat)
    requires start <= |s|
    ensures start <= i <= |s| && forall k :: start <= k < i ==> s[k] < 0x80
    ensures |s| - i < 8 || exists k :: i <= k < i + 8 && s[k] >= 0x80
  {
    i := start;
    while |s| - i >= 8
      invariant start <= i <= |s| && forall k :: start <= k < i ==> s[k] < 0x80
    {
      var word := Load64(s, i);
      ghost var w := s[i..i + 8];
      HighBitsOfBytes(w);
      if HighBits(word, 8) {
        break;
      }
      assert forall k :: i <= k < i + 8 ==> s[k] == w[k - i];
      i := i + 8;
    }
  }

  /** `qio_utf8_invalid_at`: the accelerated validator returns what the reference returns. */
  method InvalidAt(s: seq<byte>) returns (r: nat)
    ensures r == Verdict(s)
  {
    var i := 0;
    while i < |s|
      invariant i <= |s| && IsText(s[..i])
    {
      var j := SkipAscii(s, i);
      AsciiRun(s, i, j);
      i := j;
      if i >= |s| {
        break;
      }
      if s[i] < 0x80 {
        AsciiStep(s, i);
        i := i + 1;
      } else {
        var ok, next := ScanChar(s, i);
        if !ok {
          return i + 1;
        }
        i := next;
      }
    }
    Finished(s);
    return 0;
  }
}
