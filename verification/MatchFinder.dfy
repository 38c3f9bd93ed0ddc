/** What both compressors share: a hash table of positions, and the check that makes a match. */
module MatchFinder {
  import opened Bytes
  import opened Match

  /** Every position in the hash table lies before `limit`. */
  ghost predicate Below(table: array<nat>, limit: nat)
    reads table
  {
    forall h :: 0 <= h < table.Length ==> table[h] < limit
  }

  /** Looks up a position under its hash and files the current one there, truncated to the entry's width. */
  method Exchange(table: array<nat>, h: nat, ip: nat, width: nat) returns (candidate: nat)
    requires Below(table, ip) && h < table.Length && ip < width
    modifies table
    ensures candidate < ip && Below(table, ip + 1)
    ensures candidate == old(table[h]) && table[..] == old(table[..])[h := ip]
  {
    candidate := table[h];
    SmallRemainder(ip, width);
    table[h] := ip % width;
  }

  lemma SmallRemainder(a: nat, b: nat)
    requires a < b
    ensures a % b == a
  {
  }

  /** A run of one byte value. */
  ghost predicate Uniform(s: seq<byte>)
  {
    forall k :: 0 <= k < |s| ==> s[k] == s[0]
  }

  lemma UniformSlice(s: seq<byte>, a: nat, b: nat)
    requires Uniform(s) && a <= b <= |s|
    ensures Uniform(s[a..b])
  {
  }

  lemma UniformLoads(s: seq<byte>, p: nat, q: nat)
    requires Uniform(s)
    ensures p + 4 <= |s| && q + 4 <= |s| ==> Load32(s, p) == Load32(s, q)
    ensures p + 8 <= |s| && q + 8 <= |s| ==> Load64(s, p) == Load64(s, q)
  {
    if p + 4 <= |s| && q + 4 <= |s| {
      assert s[p..p + 4] == s[q..q + 4];
    }
    if p + 8 <= |s| && q + 8 <= |s| {
      assert s[p..p + 8] == s[q..q + 8];
    }
  }

  /** Four equal bytes at two positions: the check that makes a candidate a match. */
  ghost predicate Matches(s: seq<byte>, candidate: nat, ip: nat)
  {
    candidate < ip && ip + 4 <= |s| && Repeats(s, ip - candidate, ip, ip + 4)
  }

  lemma LoadsMatch(s: seq<byte>, candidate: nat, ip: nat)
    requires candidate < ip && ip + 4 <= |s| && Load32(s, candidate) == Load32(s, ip)
    ensures Matches(s, candidate, ip)
  {
    LEInjective(s[candidate..candidate + 4], s[ip..ip + 4]);
    SameSlice(s, candidate, ip, 4);
  }

  lemma SameSlice(s: seq<byte>, m: nat, p: nat, n: nat)
    requires m < p && p + n <= |s| && s[p..p + n] == s[m..m + n]
    ensures Repeats(s, p - m, p, p + n)
  {
    forall k | p <= k < p + n ensures s[k] == s[k - (p - m)] {
      assert s[k] == s[p..p + n][k - p] == s[m..m + n][k - p];
    }
  }

  lemma FirstDifference(s: seq<byte>, q: nat, offset: nat)
    requires 0 < offset <= q && q + 8 <= |s| && Load64(s, q) != Load64(s, q - offset)
    ensures var k := CtzXor(Load64(s, q), Load64(s, q - offset)) / 8;
            k < 8 && Repeats(s, offset, q, q + k) && s[q + k] != s[q + k - offset]
  {
    var x, y := s[q..q + 8], s[q - offset..q - offset + 8];
    CtzXorFindsByte(x, y);
    var k := CtzXor(LE(x), LE(y)) / 8;
    assert s[q..q + k] == x[..k] && s[q - offset..q - offset + k] == y[..k];
    SameSlice(s, q - offset, q, k);
    assert s[q + k] == x[k] && s[q + k - offset] == y[k];
  }
}
