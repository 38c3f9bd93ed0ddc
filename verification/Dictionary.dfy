/** Text chunks: read through the dictionary, or, when that is declined or abandoned, materialized. */
module Dictionary {
  import opened Bytes
  import opened Levels
  import opened Options
  import opened StringCache
  import opened Frame
  import opened Collect

  // ---- what is stored ----

  /** The bytes of a value; `None` when its length does not fit the signed length of a byte array. */
  type Content = Option<seq<byte>>

  /** A data page: dictionary indices, values written out, or one that does not decode. */
  datatype Page = Indices(indices: Rows<nat>) | Values(values: Rows<Content>) | Broken(length: nat)

  /** The dictionary page: its bytes, and where each entry starts. */
  datatype Entries = Entries(data: seq<byte>, offsets: seq<nat>)
  {
    /** A PLAIN entry: a 4-byte length, then the bytes, all within the page. */
    function At(k: nat): (c: Content)
      requires k < |offsets|
    {
      var start := offsets[k];
      if start + 4 > |data| then None
      else
        var length := LE(data[start..start + 4]);
        if length > 0x7FFF_FFFF || start + 4 + length > |data| then None
        else Some(data[start + 4..start + 4 + length])
    }
  }

  /** `s` is the entry that starts at `o`: four bytes of length, the lowest first, and then its own bytes. */
  ghost predicate IsEntry(data: seq<byte>, o: nat, s: seq<byte>)
  {
    && o + 4 + |s| <= |data|
    && |s| == data[o] + 0x100 * data[o + 1] as int + 0x1_0000 * data[o + 2] as int + 0x100_0000 * data[o + 3] as int
    && forall j :: 0 <= j < |s| ==> s[j] == data[o + 4 + j]
  }

  /** Entry `k` is there exactly if it lies in the page and its length fits 31 bits; then it is those bytes. */
  lemma AtMeans(entries: Entries, k: nat, s: seq<byte>)
    requires k < |entries.offsets|
    ensures entries.At(k) == Some(s) <==> IsEntry(entries.data, entries.offsets[k], s) && |s| <= 0x7FFF_FFFF
  {
    var o, data := entries.offsets[k], entries.data;
    if o + 4 <= |data| {
      LEOfFour(data[o..o + 4]);
      if o + 4 + |s| <= |data| {
        assert data[o + 4..o + 4 + |s|] == s <==> forall j :: 0 <= j < |s| ==> s[j] == data[o + 4 + j];
      }
    }
  }

  /** A chunk: its pages, the dictionary the reader finds, and whether the footer speaks of one. */
  datatype TextChunk = TextChunk(pages: seq<Page>, dictionary: Option<Entries>, declared: bool, nullable: bool)
  {
    predicate Valid()
    {
      forall k :: 0 <= k < |pages| ==>
        && (pages[k].Indices? ==> Storable(pages[k].indices, nullable))
        && (pages[k].Values? ==> Storable(pages[k].values, nullable))
    }
  }

  /** The pages put together: all rows, and the first row of the first page that does not load. */
  function Assembled<T>(pages: seq<Page>, nullable: bool, rowsOf: Page -> Rows<T>, loads: Page -> bool): (c: Chunk<T>)
    ensures c.nullable == nullable && (c.bad.Some? ==> c.bad.value <= |c.rows|)
  {
    if pages == [] then Chunk([], nullable, None)
    else
      var c, p := Assembled(pages[..|pages| - 1], nullable, rowsOf, loads), pages[|pages| - 1];
      Chunk(c.rows + rowsOf(p), nullable, if c.bad.Some? || loads(p) then c.bad else Some(|c.rows|))
  }

  predicate InRange(rows: Rows<nat>, count: nat)
  {
    forall i :: 0 <= i < |rows| && rows[i].Some? ==> rows[i].value < count
  }

  function Looked(dictionary: Option<Entries>, row: Option<nat>): (c: Option<Content>)
  {
    if row.None? then None
    else if dictionary.Some? && row.value < |dictionary.value.offsets| then Some(dictionary.value.At(row.value))
    else Some(None)
  }

  function ContentsOf(dictionary: Option<Entries>, p: Page): (rows: Rows<Content>)
  {
    match p
    case Indices(indices) => seq(|indices|, i requires 0 <= i < |indices| => Looked(dictionary, indices[i]))
    case Values(values) => values
    case Broken(n) => seq(n, _ => Some(None))
  }

  function IndicesOf(p: Page): (rows: Rows<nat>)
  {
    match p
    case Indices(indices) => indices
    case Values(values) => seq(|values|, _ => Some(0))
    case Broken(n) => seq(n, _ => Some(0))
  }

  /** A dictionary page loads, materialized, only if every one of its indices is in range. */
  predicate Decodes(dictionary: Option<Entries>, p: Page)
  {
    p.Values? || (p.Indices? && dictionary.Some? && InRange(p.indices, |dictionary.value.offsets|))
  }

  /** Keeping indices, only a dictionary page loads, and its indices are not looked at. */
  predicate Preserves(dictionary: Option<Entries>, p: Page)
  {
    p.Indices? && dictionary.Some?
  }

  /** The chunk as carquet materializes it. */
  function Materialized(t: TextChunk): (c: Chunk<Content>)
  {
    Assembled(t.pages, t.nullable, p => ContentsOf(t.dictionary, p), p => Decodes(t.dictionary, p))
  }

  /** The chunk as carquet reads it with the dictionary preserved. */
  function Preserved(t: TextChunk): (c: Chunk<nat>)
  {
    Assembled(t.pages, t.nullable, p => IndicesOf(p), p => Preserves(t.dictionary, p))
  }

  /** Row `i` comes before the first page that does not load. */
  predicate Before<T>(c: Chunk<T>, i: nat)
  {
    i < |c.rows| && (c.bad.Some? ==> i < c.bad.value)
  }

  /** A row that refers past the end of the dictionary. */
  predicate Astray(t: TextChunk, i: nat)
    requires i < |Preserved(t).rows|
  {
    var row := Preserved(t).rows[i];
    row.Some? && t.dictionary.Some? && row.value >= |t.dictionary.value.offsets|
  }

  /** Both readings have the same rows, as far as indices can be preserved. */
  ghost predicate SameRows(t: TextChunk)
  {
    var m, p := Materialized(t), Preserved(t);
    && |m.rows| == |p.rows|
    && m.Valid() && p.Valid()
    && forall i :: 0 <= i < |p.rows| && Before(p, i) ==> m.rows[i] == Looked(t.dictionary, p.rows[i])
  }

  /** Where indices load, a row that is astray keeps its page from being materialized. */
  ghost predicate AstrayFails(t: TextChunk)
  {
    var m, p := Materialized(t), Preserved(t);
    forall i :: 0 <= i < |p.rows| && Before(p, i) && Astray(t, i) ==> m.bad.Some? && m.bad.value <= i
  }

  /** Where indices load, nothing else does. */
  ghost predicate OnlyAstrayFails(t: TextChunk)
  {
    var m, p := Materialized(t), Preserved(t);
    m.bad.Some? && (p.bad.Some? ==> m.bad.value < p.bad.value) ==>
      exists i :: m.bad.value <= i < |p.rows| && Before(p, i) && Astray(t, i)
  }

  lemma {:induction false} ReadingsAgree(t: TextChunk)
    requires t.Valid()
    ensures SameRows(t) && AstrayFails(t) && OnlyAstrayFails(t)
    decreases |t.pages|
  {
    if t.pages == [] {
    } else {
      var s := t.(pages := t.pages[..|t.pages| - 1]);
      ReadingsAgree(s);
      PageRows(s, t);
      PageFails(s, t);
      OnlyPageFails(s, t);
    }
  }

  /** `t` is `s` with one page more. */
  predicate Extends(s: TextChunk, t: TextChunk)
  {
    t.Valid() && t.pages != [] && s == t.(pages := t.pages[..|t.pages| - 1])
  }

  /** The page adds its rows to both readings. */
  lemma PageAdds(s: TextChunk, t: TextChunk)
    requires Extends(s, t)
    ensures var p := t.pages[|t.pages| - 1];
            && Preserved(t).rows == Preserved(s).rows + IndicesOf(p)
            && Materialized(t).rows == Materialized(s).rows + ContentsOf(t.dictionary, p)
            && Preserved(t).bad == (if Preserved(s).bad.Some? || Preserves(t.dictionary, p) then Preserved(s).bad
                                    else Some(|Preserved(s).rows|))
  {
  }

  /** Rows before the page are as they were. */
  lemma PageBefore(s: TextChunk, t: TextChunk, i: nat)
    requires Extends(s, t) && i < |Preserved(s).rows|
    ensures i < |Preserved(t).rows| && Before(Preserved(t), i) == Before(Preserved(s), i)
            && Astray(t, i) == Astray(s, i)
    ensures Preserved(t).rows[i] == Preserved(s).rows[i]
  {
    PageAdds(s, t);
  }

  lemma PageRow(s: TextChunk, t: TextChunk, i: nat)
    requires Extends(s, t) && SameRows(s) && i < |Preserved(t).rows| && Before(Preserved(t), i)
    ensures |Materialized(t).rows| == |Preserved(t).rows|
    ensures Materialized(t).rows[i] == Looked(t.dictionary, Preserved(t).rows[i])
  {
    PageAdds(s, t);
    if i < |Preserved(s).rows| {
      PageBefore(s, t, i);
    }
  }

  lemma PageValid(s: TextChunk, t: TextChunk)
    requires Extends(s, t) && SameRows(s)
    ensures Materialized(t).Valid() && Preserved(t).Valid() && |Materialized(t).rows| == |Preserved(t).rows|
  {
    PageAdds(s, t);
  }

  lemma PageRows(s: TextChunk, t: TextChunk)
    requires Extends(s, t) && SameRows(s)
    ensures SameRows(t)
    ensures forall i :: 0 <= i < |Preserved(s).rows| ==>
              i < |Preserved(t).rows| && Before(Preserved(t), i) == Before(Preserved(s), i)
                && Astray(t, i) == Astray(s, i)
  {
    PageValid(s, t);
    forall i | 0 <= i < |Preserved(t).rows| && Before(Preserved(t), i)
      ensures Materialized(t).rows[i] == Looked(t.dictionary, Preserved(t).rows[i])
    {
      PageRow(s, t, i);
    }
    forall i | 0 <= i < |Preserved(s).rows|
      ensures i < |Preserved(t).rows| && Before(Preserved(t), i) == Before(Preserved(s), i)
              && Astray(t, i) == Astray(s, i)
    {
      PageBefore(s, t, i);
    }
  }

  lemma PageFails(s: TextChunk, t: TextChunk)
    requires Extends(s, t) && SameRows(s) && AstrayFails(s)
    ensures AstrayFails(t)
  {
    PageRows(s, t);
    var p, a, b := t.pages[|t.pages| - 1], Preserved(s), Preserved(t);
    forall i | |a.rows| <= i < |b.rows| && Before(b, i) && Astray(t, i) ensures !Decodes(t.dictionary, p) {
      assert p.indices[i - |a.rows|] == b.rows[i];
    }
  }

  lemma OnlyPageFails(s: TextChunk, t: TextChunk)
    requires Extends(s, t) && SameRows(s) && OnlyAstrayFails(s)
    ensures OnlyAstrayFails(t)
  {
    PageRows(s, t);
    var p, a, b := t.pages[|t.pages| - 1], Preserved(s), Preserved(t);
    if Materialized(s).bad.None? && a.bad.None? && Preserves(t.dictionary, p) && !Decodes(t.dictionary, p) {
      var j :| 0 <= j < |p.indices| && p.indices[j].Some? && p.indices[j].value >= |t.dictionary.value.offsets|;
      assert b.rows[|a.rows| + j] == p.indices[j];
      assert Before(b, |a.rows| + j) && Astray(t, |a.rows| + j);
    } else if Materialized(s).bad.Some? && (b.bad.Some? ==> Materialized(t).bad.value < b.bad.value) {
      var i :| Materialized(s).bad.value <= i < |a.rows| && Before(a, i) && Astray(s, i);
      assert Before(b, i) && Astray(t, i);
    }
  }

  // ---- the materializing path ----

  /** Content that R can hold as a string. */
  ghost predicate IsString(c: Content)
  {
    c.Some? && 0 !in c.value && Utf8.IsText(c.value)
  }

  ghost predicate AllStrings(rows: Rows<Content>)
  {
    forall i :: 0 <= i < |rows| && rows[i].Some? ==> IsString(rows[i].value)
  }

  function TextCell(row: Option<Content>): (c: Cell)
  {
    if row.None? then NaString else if row.value.Some? then Str(row.value.value) else Str([])
  }

  function TextCells(rows: Rows<Content>): (s: seq<Cell>)
    ensures |s| == |rows|
  {
    seq(|rows|, i requires 0 <= i < |rows| => TextCell(rows[i]))
  }

  /** Where the values of a batch lie: page memory, by the batch's first row, and addresses in it, by row. */
  datatype Layout = Layout(memory: nat -> Memory, address: (nat, nat) -> ByteArray)

  ghost predicate Describes(page: Memory, v: ByteArray, c: Content)
  {
    if c.None? then v.length < 0
    else v.length == |c.value| && (v.length > 0 ==> v.data != 0 && BytesAt(page, v.data, v.length) == c.value)
  }

  ghost predicate LaidOut(layout: Layout, rows: Rows<Content>)
  {
    forall a: nat, i: nat :: a <= i < |rows| && rows[i].Some? ==>
      Describes(layout.memory(a), layout.address(a, i), rows[i].value)
  }

  /** Rows `a` to `b` as byte arrays. */
  function Addressed(layout: Layout, rows: Rows<Content>, a: nat, b: nat): (s: Rows<ByteArray>)
    requires a <= b <= |rows|
    ensures |s| == b - a
  {
    seq(b - a, k requires 0 <= k < b - a => if rows[a + k].Some? then Some(layout.address(a, a + k)) else None)
  }

  lemma DescribedAccepted(page: Memory, v: ByteArray, c: Content)
    requires Describes(page, v, c)
    ensures Accepted(page, v) <==> IsString(c)
    ensures IsString(c) ==> BytesAt(page, v.data, v.length) == c.value
  {
    if c.Some? && |c.value| == 0 {
      assert Utf8.IsText(c.value);
    }
  }

  /** Interning a batch yields its strings, or fails exactly when one of them is none. */
  lemma {:induction false} InternedContents(page: Memory, batch: Rows<ByteArray>, rows: Rows<Content>, n: nat)
    requires n <= |batch| == |rows|
    requires forall i :: 0 <= i < |rows| ==> batch[i].Some? == rows[i].Some?
    requires forall i :: 0 <= i < |rows| && rows[i].Some? ==> Describes(page, batch[i].value, rows[i].value)
    ensures Interned(page, batch, n).Column? <==> AllStrings(rows[..n])
    ensures AllStrings(rows[..n]) ==> Interned(page, batch, n).cells == TextCells(rows[..n])
    decreases n
  {
    if n == 0 {
    } else {
      InternedContents(page, batch, rows, n - 1);
      assert rows[..n] == rows[..n - 1] + [rows[n - 1]];
      if rows[n - 1].Some? {
        DescribedAccepted(page, batch[n - 1].value, rows[n - 1].value);
      }
      assert TextCells(rows[..n]) == TextCells(rows[..n - 1]) + [TextCell(rows[n - 1])];
    }
  }

  /** A batch of byte arrays for the next `want` rows, if they are there and decode. */
  method ReadArrays(reader: ColumnReader<Content>, layout: Layout, want: nat) returns (batch: Option<Batch<ByteArray>>)
    requires reader.chunk.Valid() && reader.chunk.Readable(reader.pos) && want >= 1
    modifies reader`pos
    ensures batch.Some? <==> reader.chunk.Readable(old(reader.pos) + want)
    ensures batch.Some? ==>
              && reader.pos == old(reader.pos) + want
              && batch.value.Valid() && batch.value.length == want
              && batch.value.Rows() == Addressed(layout, reader.chunk.rows, old(reader.pos), reader.pos)
  {
    var a := reader.pos;
    var values := ReadExactly(reader, want);
    if values.None? {
      return None;
    }
    var arrays := Addressed(layout, reader.chunk.rows, a, a + want);
    DenseRows(arrays, reader.chunk.nullable);
    batch := Some(Dense(arrays, reader.chunk.nullable));
  }

  /** Through the address cache, wherever the values lie: their strings, or an error if one is none. */
  method ScatterText(layout: Layout, rows: Rows<Content>, a: nat, batch: Batch<ByteArray>, hash: nat -> nat,
                     dst: array<Cell>, offset: nat)
    returns (ok: bool)
    requires batch.Valid() && a + batch.length <= |rows| && LaidOut(layout, rows)
    requires batch.Rows() == Addressed(layout, rows, a, a + batch.length)
    requires offset + batch.length <= dst.Length && forall k :: hash(k) < CACHE_SIZE
    modifies dst
    ensures ok <==> AllStrings(rows[a..a + batch.length])
    ensures ok ==> dst[offset..offset + batch.length] == TextCells(rows[a..a + batch.length])
    ensures forall k :: 0 <= k < offset || offset + batch.length <= k < dst.Length ==> dst[k] == old(dst[k])
  {
    BatchContents(layout, rows, a, a + batch.length);
    var bad := ScatterStrings(layout.memory(a), hash, batch, dst, offset);
    ok := bad.None?;
  }

  /** A batch of text behind the `a` cells that stand from `offset` on. */
  method ScatterTextBehind(layout: Layout, rows: Rows<Content>, a: nat, batch: Batch<ByteArray>, hash: nat -> nat,
                           dst: array<Cell>, offset: nat)
    returns (ok: bool)
    requires batch.Valid() && a + batch.length <= |rows| && LaidOut(layout, rows)
    requires batch.Rows() == Addressed(layout, rows, a, a + batch.length)
    requires offset + a + batch.length <= dst.Length && forall k :: hash(k) < CACHE_SIZE
    modifies dst
    ensures ok <==> AllStrings(rows[a..a + batch.length])
    ensures ok ==> dst[offset..offset + a + batch.length]
                   == old(dst[offset..offset + a]) + TextCells(rows[a..a + batch.length])
    ensures forall k :: 0 <= k < offset || offset + a + batch.length <= k < dst.Length ==> dst[k] == old(dst[k])
  {
    ok := ScatterText(layout, rows, a, batch, hash, dst, offset + a);
    if ok {
      assert dst[offset..offset + a] == old(dst[offset..offset + a]);
      assert dst[offset..offset + a + batch.length]
        == dst[offset..offset + a] + dst[offset + a..offset + a + batch.length];
    }
  }

  lemma BatchContents(layout: Layout, rows: Rows<Content>, a: nat, b: nat)
    requires a <= b <= |rows| && LaidOut(layout, rows)
    ensures var r := Interned(layout.memory(a), Addressed(layout, rows, a, b), b - a);
            (r.Column? <==> AllStrings(rows[a..b])) && (r.Column? ==> r.cells == TextCells(rows[a..b]))
  {
    var part := rows[a..b];
    InternedContents(layout.memory(a), Addressed(layout, rows, a, b), part, b - a);
    assert part[..b - a] == part;
  }

  /** One batch more: the rows before it stay, its own are added, or it fails. */
  method MaterializeBatch(chunk: Chunk<Content>, reader: ColumnReader<Content>, layout: Layout, hash: nat -> nat,
                          want: nat, dst: array<Cell>, offset: nat)
    returns (ok: bool)
    requires reader.chunk == chunk && chunk.Valid() && LaidOut(layout, chunk.rows) && forall k :: hash(k) < CACHE_SIZE
    requires chunk.Readable(reader.pos) && AllStrings(chunk.rows[..reader.pos]) && want >= 1
    requires offset + reader.pos + want <= dst.Length
             && dst[offset..offset + reader.pos] == TextCells(chunk.rows[..reader.pos])
    modifies reader`pos, dst
    ensures ok <==> chunk.Readable(old(reader.pos) + want) && AllStrings(chunk.rows[..old(reader.pos) + want])
    ensures ok ==> reader.pos == old(reader.pos) + want
                   && dst[offset..offset + reader.pos] == TextCells(chunk.rows[..reader.pos])
    ensures forall k :: 0 <= k < offset || offset + old(reader.pos) + want <= k < dst.Length ==> dst[k] == old(dst[k])
  {
    var read := reader.pos;
    var batch := ReadArrays(reader, layout, want);
    if batch.None? {
      return false;
    }
    StringsConcat(chunk.rows, read, read + want);
    ok := ScatterTextBehind(layout, chunk.rows, read, batch.value, hash, dst, offset);
  }

  /** Reads a chunk in batches and interns it row by row; stops at the first row that is no string. */
  method Materialize(chunk: Chunk<Content>, layout: Layout, hash: nat -> nat, expected: nat, batchSize: nat,
                     dst: array<Cell>, offset: nat)
    returns (ok: bool)
    requires chunk.Valid() && LaidOut(layout, chunk.rows) && forall k :: hash(k) < CACHE_SIZE
    requires offset + expected <= dst.Length && batchSize >= 1
    modifies dst
    ensures ok <==> chunk.Readable(expected) && AllStrings(chunk.rows[..expected])
    ensures ok ==> dst[offset..offset + expected] == TextCells(chunk.rows[..expected])
    ensures forall k :: 0 <= k < offset || offset + expected <= k < dst.Length ==> dst[k] == old(dst[k])
  {
    var reader := new ColumnReader(chunk);
    while reader.pos < expected
      invariant reader.chunk == chunk && reader.pos <= expected && chunk.Readable(reader.pos)
      invariant AllStrings(chunk.rows[..reader.pos])
                && dst[offset..offset + reader.pos] == TextCells(chunk.rows[..reader.pos])
      invariant forall k :: 0 <= k < offset || offset + expected <= k < dst.Length ==> dst[k] == old(dst[k])
      decreases expected - reader.pos
    {
      var want := if expected - reader.pos > batchSize then batchSize else expected - reader.pos;
      ghost var read := reader.pos + want;
      ok := MaterializeBatch(chunk, reader, layout, hash, want, dst, offset);
      if !ok {
        BadPrefix(chunk.rows, read, expected);
        return;
      }
    }
    ok := true;
  }

  lemma StringsConcat(rows: Rows<Content>, a: nat, b: nat)
    requires a <= b <= |rows|
    ensures AllStrings(rows[..b]) <==> AllStrings(rows[..a]) && AllStrings(rows[a..b])
    ensures TextCells(rows[..b]) == TextCells(rows[..a]) + TextCells(rows[a..b])
  {
    assert rows[..b] == rows[..a] + rows[a..b];
  }

  lemma BadPrefix(rows: Rows<Content>, a: nat, b: nat)
    requires a <= b
    ensures b <= |rows| && AllStrings(rows[..b]) ==> AllStrings(rows[..a])
  {
    if b <= |rows| {
      assert rows[..a] == rows[..b][..a];
    }
  }

  // ---- the dictionary path ----

  /** Every entry is a string, whether a row refers to it or not. */
  ghost predicate Clean(entries: Entries)
  {
    forall k :: 0 <= k < |entries.offsets| ==> IsString(entries.At(k))
  }

  /** The entry at `o` lies in the page, its length fits 31 bits, and it is a string. */
  ghost predicate HoldsString(data: seq<byte>, o: nat)
  {
    exists s :: IsEntry(data, o, s) && |s| <= 0x7FFF_FFFF && 0 !in s && Utf8.IsText(s)
  }

  lemma CleanMeans(entries: Entries)
    ensures Clean(entries) <==> forall k :: 0 <= k < |entries.offsets| ==> HoldsString(entries.data, entries.offsets[k])
  {
    forall k | 0 <= k < |entries.offsets|
      ensures IsString(entries.At(k)) <==> HoldsString(entries.data, entries.offsets[k])
    {
      if IsString(entries.At(k)) {
        AtMeans(entries, k, entries.At(k).value);
      }
      if HoldsString(entries.data, entries.offsets[k]) {
        var s :| IsEntry(entries.data, entries.offsets[k], s) && |s| <= 0x7FFF_FFFF && 0 !in s && Utf8.IsText(s);
        AtMeans(entries, k, s);
      }
    }
  }

  /** `qio_dictionary_strings`: all entries, or an error if one leaves the page, is too long or is no string. */
  method DictionaryStrings(entries: Entries) returns (ok: bool, dict: seq<seq<byte>>)
    ensures ok <==> Clean(entries)
    ensures ok <==> forall k :: 0 <= k < |entries.offsets| ==> HoldsString(entries.data, entries.offsets[k])
    ensures ok ==> |dict| == |entries.offsets| && forall k :: 0 <= k < |dict| ==> entries.At(k) == Some(dict[k])
    ensures ok ==> forall k :: 0 <= k < |dict| ==> IsEntry(entries.data, entries.offsets[k], dict[k])
  {
    CleanMeans(entries);
    dict := [];
    for k := 0 to |entries.offsets|
      invariant |dict| == k
      invariant forall j :: 0 <= j < k ==> IsString(entries.At(j)) && entries.At(j) == Some(dict[j])
    {
      var c := entries.At(k);
      if c.None? || 0 in c.value {
        return false, dict;
      }
      var at := Utf8.InvalidAt(c.value);
      if at != 0 {
        return false, dict;
      }
      dict := dict + [c.value];
    }
    forall k | 0 <= k < |dict| ensures IsEntry(entries.data, entries.offsets[k], dict[k]) {
      AtMeans(entries, k, dict[k]);
    }
    ok := true;
  }

  function IndexCell(dict: seq<seq<byte>>, row: Option<nat>): (c: Cell)
    requires row.Some? ==> row.value < |dict|
  {
    if row.Some? then Str(dict[row.value]) else NaString
  }

  /** The entries that rows refer to. */
  function Gathered(dict: seq<seq<byte>>, rows: Rows<nat>): (cells: seq<Cell>)
    requires InRange(rows, |dict|)
    ensures |cells| == |rows|
    ensures forall i :: 0 <= i < |rows| && rows[i].Some? ==> cells[i] == Str(dict[rows[i].value])
    ensures forall i :: 0 <= i < |rows| && rows[i].None? ==> cells[i] == NaString
  {
    seq(|rows|, i requires 0 <= i < |rows| => IndexCell(dict, rows[i]))
  }

  lemma GatheredMore(dict: seq<seq<byte>>, rows: Rows<nat>, a: nat, b: nat)
    requires a <= b <= |rows| && InRange(rows[..a], |dict|) && InRange(rows[a..b], |dict|)
    ensures InRange(rows[..b], |dict|)
            && Gathered(dict, rows[..b]) == Gathered(dict, rows[..a]) + Gathered(dict, rows[a..b])
  {
    PrefixThenSlice(rows, a, b);
  }

  /** `qio_scatter_dictionary_strings`: gathers by index, or stops at an index that is out of range. */
  method ScatterIndices(dict: seq<seq<byte>>, batch: Batch<nat>, dst: array<Cell>, offset: nat) returns (ok: bool)
    requires batch.Valid() && offset + batch.length <= dst.Length
    modifies dst
    ensures ok <==> InRange(batch.Rows(), |dict|)
    ensures ok ==> dst[offset..offset + batch.length] == Gathered(dict, batch.Rows())
    ensures forall k :: 0 <= k < offset || offset + batch.length <= k < dst.Length ==> dst[k] == old(dst[k])
  {
    ghost var rows := batch.Rows();
    var j := 0;
    for i := 0 to batch.length
      invariant j == Rank(batch.defs, batch.maxDef, i)
      invariant forall k :: 0 <= k < i && rows[k].Some? ==> rows[k].value < |dict|
      invariant forall k :: 0 <= k < i ==> dst[offset + k] == IndexCell(dict, rows[k])
      invariant forall k :: 0 <= k < offset || offset + batch.length <= k < dst.Length ==> dst[k] == old(dst[k])
    {
      if Present(batch.defs, batch.maxDef, i) {
        RankMonotone(batch.defs, batch.maxDef, i + 1, batch.length);
        var index := batch.values[j];
        assert rows[i] == Some(index);
        j := j + 1;
        if index >= |dict| {
          return false;
        }
        dst[offset + i] := Str(dict[index]);
      } else {
        dst[offset + i] := NaString;
      }
    }
    ok := true;
  }

  /** How an attempt ends: the chunk is read, it must be read again, or an error was raised. */
  datatype Attempt = Read | FallBack | Raised

  /** The footer speaks of a dictionary, there are rows, the first page loads, and the dictionary is there. */
  predicate Tried(t: TextChunk)
  {
    t.declared && t.dictionary.Some? && Preserved(t).rows != [] && Preserved(t).bad != Some(0)
  }

  /** The attempt can be carried through. */
  predicate Followed(t: TextChunk, expected: nat)
    requires t.dictionary.Some?
  {
    Preserved(t).Readable(expected) && InRange(Preserved(t).rows[..expected], |t.dictionary.value.offsets|)
  }

  /** One of the first `n` rows, in pages that load, refers past the end of the dictionary. */
  ghost predicate HasAstray(t: TextChunk, n: nat)
  {
    exists i :: 0 <= i < n && Before(Preserved(t), i) && Astray(t, i)
  }

  lemma OutOfRangeIsAstray(t: TextChunk, a: nat, b: nat)
    requires t.dictionary.Some? && a <= b && Preserved(t).Readable(a)
    requires !InRange(Preserved(t).rows[..a], |t.dictionary.value.offsets|)
    ensures HasAstray(t, b)
  {
    var part := Preserved(t).rows[..a];
    var i :| 0 <= i < |part| && part[i].Some? && part[i].value >= |t.dictionary.value.offsets|;
    assert Before(Preserved(t), i) && Astray(t, i);
  }

  /** The first `n` rows can be read and stand in the vector, gathered. */
  ghost predicate Gathers(chunk: Chunk<nat>, dict: seq<seq<byte>>, n: nat, dst: array<Cell>, offset: nat)
    reads dst
  {
    && chunk.Readable(n) && InRange(chunk.rows[..n], |dict|)
    && offset + n <= dst.Length && dst[offset..offset + n] == Gathered(dict, chunk.rows[..n])
  }

  /** A batch of indices behind the `n` cells that stand from `offset` on. */
  method GatherBehind(dict: seq<seq<byte>>, batch: Batch<nat>, dst: array<Cell>, offset: nat, n: nat) returns (ok: bool)
    requires batch.Valid() && offset + n + batch.length <= dst.Length
    modifies dst
    ensures ok <==> InRange(batch.Rows(), |dict|)
    ensures ok ==> dst[offset..offset + n + batch.length] == old(dst[offset..offset + n]) + Gathered(dict, batch.Rows())
    ensures forall k :: 0 <= k < offset || offset + n + batch.length <= k < dst.Length ==> dst[k] == old(dst[k])
  {
    ok := ScatterIndices(dict, batch, dst, offset + n);
    if ok {
      assert dst[offset..offset + n] == old(dst[offset..offset + n]);
      assert dst[offset..offset + n + batch.length]
        == dst[offset..offset + n] + dst[offset + n..offset + n + batch.length];
    }
  }

  /** The next batch of indices, gathered behind those before. */
  method TryBatch(reader: ColumnReader<nat>, dict: seq<seq<byte>>, want: nat, dst: array<Cell>, offset: nat)
    returns (r: Attempt)
    requires reader.chunk.Valid() && Gathers(reader.chunk, dict, reader.pos, dst, offset)
    requires want >= 1 && offset + reader.pos + want <= dst.Length
    modifies reader`pos, dst
    ensures r == FallBack <==> !reader.chunk.Readable(old(reader.pos) + want)
    ensures r == FallBack ==> unchanged(dst)
    ensures r == Raised ==> !InRange(reader.chunk.rows[old(reader.pos)..old(reader.pos) + want], |dict|)
    ensures r == Read ==> reader.pos == old(reader.pos) + want && Gathers(reader.chunk, dict, reader.pos, dst, offset)
    ensures forall k :: 0 <= k < offset || offset + old(reader.pos) + want <= k < dst.Length ==> dst[k] == old(dst[k])
  {
    var a := reader.pos;
    var batch := ReadExactly(reader, want);
    if batch.None? {
      return FallBack;
    }
    var ok := GatherBehind(dict, batch.value, dst, offset, a);
    if !ok {
      return Raised;
    }
    GatheredMore(dict, reader.chunk.rows, a, a + want);
    r := Read;
  }

  lemma FallsShort<T>(chunk: Chunk<T>, read: nat, want: nat, expected: nat, batchSize: nat)
    requires batchSize >= 1 && chunk.Readable(read) && !chunk.Readable(read + want)
             && WholeBatches(read, batchSize) == read
    requires want <= batchSize && read + want <= expected
    ensures !chunk.Readable(expected) && read == WholeBatches(GoodRows(chunk, expected), batchSize)
  {
    WholeBatchesOf(read, GoodRows(chunk, expected), batchSize);
  }

  lemma OutOfRangeBefore(rows: Rows<nat>, a: nat, b: nat, count: nat)
    requires a <= b <= |rows| && !InRange(rows[a..b], count)
    ensures !InRange(rows[..b], count)
  {
    assert rows[a..b] == rows[..b][a..b];
  }

  /** `cells` stand at `offset`, and everything else is as before. */
  ghost predicate Leaves(now: seq<Cell>, before: seq<Cell>, offset: nat, cells: seq<Cell>)
  {
    && |now| == |before| && offset + |cells| <= |now|
    && now[offset..offset + |cells|] == cells
    && forall k :: 0 <= k < offset || offset + |cells| <= k < |now| ==> now[k] == before[k]
  }

  lemma LeavesGathered(chunk: Chunk<nat>, dict: seq<seq<byte>>, n: nat, dst: array<Cell>, before: seq<Cell>,
                       offset: nat)
    requires Gathers(chunk, dict, n, dst, offset) && |before| == dst.Length
    requires forall k :: 0 <= k < offset || offset + n <= k < dst.Length ==> dst[k] == before[k]
    ensures Leaves(dst[..], before, offset, Gathered(dict, chunk.rows[..n]))
  {
    assert dst[..][offset..offset + n] == dst[offset..offset + n];
  }

  /** The loop over batches, once the dictionary is built: how it ends, and the row up to which it got. */
  method Follow(chunk: Chunk<nat>, dict: seq<seq<byte>>, expected: nat, batchSize: nat, dst: array<Cell>, offset: nat)
    returns (r: Attempt, read: nat)
    requires chunk.Valid() && offset + expected <= dst.Length && batchSize >= 1
    modifies dst
    ensures read <= expected && chunk.Readable(read)
    ensures r == Read ==> read == expected
    ensures r == FallBack ==> !chunk.Readable(expected) && read == WholeBatches(GoodRows(chunk, expected), batchSize)
    ensures r != Raised <==> InRange(chunk.rows[..read], |dict|)
    ensures r != Raised ==> Leaves(dst[..], old(dst[..]), offset, Gathered(dict, chunk.rows[..read]))
    ensures forall k :: 0 <= k < offset || offset + expected <= k < dst.Length ==> dst[k] == old(dst[k])
  {
    var reader := new ColumnReader(chunk);
    read := 0;
    while read < expected
      invariant reader.chunk == chunk && reader.pos == read <= expected && Gathers(chunk, dict, read, dst, offset)
      invariant read == expected || WholeBatches(read, batchSize) == read
      invariant forall k :: 0 <= k < offset || offset + read <= k < dst.Length ==> dst[k] == old(dst[k])
      decreases expected - read
    {
      var want := if expected - read > batchSize then batchSize else expected - read;
      r := TryBatch(reader, dict, want, dst, offset);
      if r == FallBack {
        FallsShort(chunk, read, want, expected, batchSize);
        LeavesGathered(chunk, dict, read, dst, old(dst[..]), offset);
        return;
      } else if r == Raised {
        OutOfRangeBefore(chunk.rows, read, read + want, |dict|);
        return Raised, read + want;
      }
      WholeBatchesNext(read, batchSize);
      read := read + want;
    }
    LeavesGathered(chunk, dict, read, dst, old(dst[..]), offset);
    r := Read;
  }

  /** What an attempt that has to be given up has written by then: the rows of whole batches. */
  ghost function Draft(t: TextChunk, expected: nat, batchSize: nat): (cells: seq<Cell>)
    requires t.Valid() && batchSize >= 1
    ensures |cells| <= expected
  {
    if Tried(t) && Clean(t.dictionary.value) && !Preserved(t).Readable(expected) then
      ReadingsAgree(t);
      TextCells(Materialized(t).rows[..WholeBatches(GoodRows(Preserved(t), expected), batchSize)])
    else []
  }

  /** The same over a clean dictionary: what is gathered are the rows that carquet materializes. */
  method FollowText(t: TextChunk, dict: seq<seq<byte>>, expected: nat, batchSize: nat, dst: array<Cell>, offset: nat)
    returns (r: Attempt)
    requires t.Valid() && Tried(t) && Clean(t.dictionary.value) && SameRows(t) && |dict| == |t.dictionary.value.offsets|
    requires forall k :: 0 <= k < |dict| ==> t.dictionary.value.At(k) == Some(dict[k])
    requires offset + expected <= dst.Length && batchSize >= 1
    modifies dst
    ensures r == Read <==> Followed(t, expected)
    ensures r == FallBack ==> !Preserved(t).Readable(expected)
                              && Leaves(dst[..], old(dst[..]), offset, Draft(t, expected, batchSize))
    ensures r == Raised ==> HasAstray(t, expected)
    ensures r == Read ==> expected <= |Materialized(t).rows|
                          && Leaves(dst[..], old(dst[..]), offset, TextCells(Materialized(t).rows[..expected]))
    ensures forall k :: 0 <= k < offset || offset + expected <= k < dst.Length ==> dst[k] == old(dst[k])
  {
    var read;
    r, read := Follow(Preserved(t), dict, expected, batchSize, dst, offset);
    if r == Raised {
      OutOfRangeIsAstray(t, read, expected);
      AstrayIsNotPlain(t, expected);
    } else {
      GatheredIsText(t, dict, read);
    }
  }

  /**
   * `qio_collect_dictionary_chunk`. It reads the chunk exactly when it can be carried through over a
   * clean dictionary; what it writes stays within the rows of the chunk, however it ends.
   */
  method TryDictionary(t: TextChunk, expected: nat, batchSize: nat, dst: array<Cell>, offset: nat) returns (r: Attempt)
    requires t.Valid() && offset + expected <= dst.Length && batchSize >= 1
    modifies dst
    ensures !Tried(t) ==> r == FallBack
    ensures Tried(t) && !Clean(t.dictionary.value) ==> r == Raised
    ensures Tried(t) && Clean(t.dictionary.value) ==> (r == Read <==> Followed(t, expected))
    ensures r == FallBack ==> !(Tried(t) && Preserved(t).Readable(expected))
                              && Leaves(dst[..], old(dst[..]), offset, Draft(t, expected, batchSize))
    ensures r == Raised ==> Tried(t) && (Clean(t.dictionary.value) ==> HasAstray(t, expected))
    ensures r == Read ==> expected <= |Materialized(t).rows|
                          && Leaves(dst[..], old(dst[..]), offset, TextCells(Materialized(t).rows[..expected]))
    ensures forall k :: 0 <= k < offset || offset + expected <= k < dst.Length ==> dst[k] == old(dst[k])
  {
    if !t.declared {
      return FallBack;
    }
    ReadingsAgree(t);
    var reader := new ColumnReader(Preserved(t));
    var loaded := reader.ReadBatch(0);
    if loaded.None? || Preserved(t).rows == [] || t.dictionary.None? {
      return FallBack;
    }
    var clean, dict := DictionaryStrings(t.dictionary.value);
    if !clean {
      return Raised;
    }
    r := FollowText(t, dict, expected, batchSize, dst, offset);
  }

  lemma GatheredIsText(t: TextChunk, dict: seq<seq<byte>>, n: nat)
    requires t.Valid() && t.dictionary.Some? && Followed(t, n) && SameRows(t) && Clean(t.dictionary.value)
    requires |dict| == |t.dictionary.value.offsets| && forall k :: 0 <= k < |dict| ==>
             t.dictionary.value.At(k) == Some(dict[k])
    ensures Gathered(dict, Preserved(t).rows[..n]) == TextCells(Materialized(t).rows[..n])
    ensures AllStrings(Materialized(t).rows[..n])
  {
    forall i | 0 <= i < n ensures Materialized(t).rows[i] == Looked(t.dictionary, Preserved(t).rows[i]) {
      assert Before(Preserved(t), i);
    }
    var p := Preserved(t).rows[..n];
    assert forall i :: 0 <= i < n && p[i].Some? ==> p[i].value < |dict|;
  }

  // ---- a text chunk ----

  /** Reading the chunk by the materializing path alone succeeds. */
  ghost predicate Plainly(t: TextChunk, expected: nat)
  {
    Materialized(t).Readable(expected) && AllStrings(Materialized(t).rows[..expected])
  }

  /** Reading the chunk with the attempt first succeeds. */
  ghost predicate Collects(t: TextChunk, expected: nat)
  {
    if !Tried(t) then Plainly(t, expected)
    else
      && Clean(t.dictionary.value)
      && if Preserved(t).Readable(expected) then Followed(t, expected) else Plainly(t, expected)
  }

  lemma CollectsHasRows(t: TextChunk, expected: nat)
    requires t.Valid() && Collects(t, expected)
    ensures expected <= |Materialized(t).rows|
  {
    ReadingsAgree(t);
  }

  lemma AstrayIsNotPlain(t: TextChunk, n: nat)
    requires t.Valid() && HasAstray(t, n)
    ensures !Plainly(t, n)
    ensures t.dictionary.Some? && !Followed(t, n)
  {
    ReadingsAgree(t);
    var i :| 0 <= i < n && Before(Preserved(t), i) && Astray(t, i);
    if Preserved(t).Readable(n) {
      assert Preserved(t).rows[..n][i] == Preserved(t).rows[i];
    }
  }

  /**
   * A text chunk: the dictionary first, then, if that was declined or abandoned, the whole chunk again
   * by the materializing path. Whichever way it is read, the rows are those that carquet materializes.
   */
  method CollectText(t: TextChunk, layout: Layout, hash: nat -> nat, expected: nat, batchSize: nat, dst: array<Cell>,
                     offset: nat)
    returns (ok: bool)
    requires t.Valid() && LaidOut(layout, Materialized(t).rows) && forall k :: hash(k) < CACHE_SIZE
    requires offset + expected <= dst.Length && batchSize >= 1
    modifies dst
    ensures ok <==> Collects(t, expected)
    ensures ok ==> |Materialized(t).rows| >= expected
                   && dst[offset..offset + expected] == TextCells(Materialized(t).rows[..expected])
    ensures forall k :: 0 <= k < offset || offset + expected <= k < dst.Length ==> dst[k] == old(dst[k])
  {
    ReadingsAgree(t);
    var attempt := TryDictionary(t, expected, batchSize, dst, offset);
    match attempt
    case Read =>
      assert dst[..][offset..offset + expected] == dst[offset..offset + expected];
      ok := true;
    case Raised =>
      if Clean(t.dictionary.value) {
        AstrayIsNotPlain(t, expected);
      }
      ok := false;
    case FallBack =>
      ok := Materialize(Materialized(t), layout, hash, expected, batchSize, dst, offset);
  }

  /** A row at or behind row `n` is astray. */
  ghost predicate AstrayBehind(t: TextChunk, n: nat)
  {
    exists i :: n <= i < |Preserved(t).rows| && Before(Preserved(t), i) && Astray(t, i)
  }

  /**
   * When trying the dictionary first changes the outcome. A chunk that could be read without it fails
   * exactly if it is tried and some entry is no string. One that could not be read is read only if
   * the offending index lies behind the expected rows; so never, if all rows are expected.
   */
  lemma AttemptChangesOutcome(t: TextChunk, expected: nat)
    requires t.Valid()
    ensures Plainly(t, expected) ==> (Collects(t, expected) <==> (Tried(t) ==> Clean(t.dictionary.value)))
    ensures Collects(t, expected) && !Plainly(t, expected) <==>
              Tried(t) && Clean(t.dictionary.value) && Followed(t, expected) && !Materialized(t).Readable(expected)
    ensures Collects(t, expected) && !Plainly(t, expected) ==>
            AstrayBehind(t, expected) && expected < |Materialized(t).rows|
  {
    ReadingsAgree(t);
    if Plainly(t, expected) && Tried(t) && Clean(t.dictionary.value) && Preserved(t).Readable(expected)
      && !Followed(t, expected) {
      var rows := Preserved(t).rows;
      var i :| 0 <= i < expected && rows[..expected][i].Some?
        && rows[..expected][i].value >= |t.dictionary.value.offsets|;
      assert Before(Preserved(t), i) && Astray(t, i);
    }
    if t.dictionary.Some? && Clean(t.dictionary.value) && Followed(t, expected) {
      FollowedIsText(t, expected);
    }
  }

  lemma FollowedIsText(t: TextChunk, expected: nat)
    requires t.Valid() && t.dictionary.Some? && Clean(t.dictionary.value) && Followed(t, expected)
    ensures |Materialized(t).rows| >= expected && AllStrings(Materialized(t).rows[..expected])
    ensures !Materialized(t).Readable(expected) ==> AstrayBehind(t, expected)
  {
    ReadingsAgree(t);
    var m, p := Materialized(t), Preserved(t);
    forall i | 0 <= i < expected ensures m.rows[i] == Looked(t.dictionary, p.rows[i]) && !Astray(t, i) {
      assert Before(p, i) && p.rows[..expected][i] == p.rows[i];
    }
    if !m.Readable(expected) {
      var i :| m.bad.value <= i < |p.rows| && Before(p, i) && Astray(t, i);
      assert i >= expected;
    }
  }

  /** In that case no row refers to such an entry. */
  lemma OnlyUnusedEntries(t: TextChunk, expected: nat, i: nat)
    requires t.Valid() && t.dictionary.Some? && expected == |Materialized(t).rows| && Plainly(t, expected)
    requires i < |Preserved(t).rows| && Before(Preserved(t), i) && Preserved(t).rows[i].Some?
    ensures var k := Preserved(t).rows[i].value; k < |t.dictionary.value.offsets| && IsString(t.dictionary.value.At(k))
  {
    ReadingsAgree(t);
    assert !Astray(t, i);
    assert Materialized(t).rows[..expected][i] == Looked(t.dictionary, Preserved(t).rows[i]);
  }

  /** Two entries, the empty string and a nul byte. */
  const TWO_ENTRIES := Entries([0, 0, 0, 0, 1, 0, 0, 0, 0], [0, 4])

  /** The page of one entry, "ab". */
  lemma EntryExample()
    ensures Entries([2, 0, 0, 0, 97, 98], [0]).At(0) == Some([97, 98])
  {
    AtMeans(Entries([2, 0, 0, 0, 97, 98], [0]), 0, [97, 98]);
  }

  lemma TwoEntries()
    ensures TWO_ENTRIES.At(0) == Some([]) && TWO_ENTRIES.At(1) == Some([0])
  {
    var d: seq<byte> := TWO_ENTRIES.data;
    assert d[0..4] == [0, 0, 0, 0] && d[4..8] == [1, 0, 0, 0] && d[8..9] == [0];
    assert LE([0]) == 0 && LE([0, 0]) == 0 && LE([0, 0, 0]) == 0;
    LEConcat1(0, [0, 0, 0]);
    LEConcat1(1, [0, 0, 0]);
    assert [0] + [0, 0, 0] == [0, 0, 0, 0] && [1] + [0, 0, 0] == [1, 0, 0, 0];
  }

  /** One row, the empty string; the other entry is not used. Only the attempt makes it an error. */
  lemma UnusedEntryRaises()
    ensures var t := TextChunk([Indices([Some(0)])], Some(TWO_ENTRIES), true, false);
            t.Valid() && Plainly(t, 1) && !Collects(t, 1)
  {
    TwoEntries();
    var t := TextChunk([Indices([Some(0)])], Some(TWO_ENTRIES), true, false);
    assert !IsString(TWO_ENTRIES.At(1));
    assert t.pages[..0] == [];
    assert Materialized(t) == Chunk([Some(Some([]))], false, None);
    assert Preserved(t) == Chunk([Some(0)], false, None);
  }

  /**
   * Short of the end of the chunk the readings can differ the other way: an index past the
   * dictionary, behind the expected rows but in their page, only fails when materialized.
   */
  lemma TailIndexIsSkipped()
    ensures var t := TextChunk([Indices([Some(0), Some(1)])], Some(Entries([0, 0, 0, 0], [0])), true, false);
            t.Valid() && Collects(t, 1) && !Plainly(t, 1)
  {
    var e := Entries([0, 0, 0, 0], [0]);
    assert LE([0]) == 0 && LE([0, 0]) == 0 && LE([0, 0, 0]) == 0;
    LEConcat1(0, [0, 0, 0]);
    assert e.data[0..4] == [0] + [0, 0, 0];
    assert e.At(0) == Some([]);
    var t := TextChunk([Indices([Some(0), Some(1)])], Some(e), true, false);
    assert t.pages[..0] == [];
    assert !InRange(t.pages[0].indices, 1) by { assert t.pages[0].indices[1] == Some(1); }
    assert Materialized(t).bad == Some(0);
    assert Preserved(t) == Chunk([Some(0), Some(1)], false, None);
    assert Preserved(t).rows[..1] == [Some(0)];
  }
}
