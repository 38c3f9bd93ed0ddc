/** The address cache in front of string interning, and the string scatter that uses it. */
module StringCache {
  import opened Bytes
  import opened Levels
  import opened Options
  import Utf8

  /** A `carquet_byte_array_t`: an address (0 is NULL) and a signed length. */
  datatype ByteArray = ByteArray(data: nat, length: int)

  /** An element of an R character vector. Interned strings are equal exactly when their bytes are. */
  datatype Cell = NaString | Str(bytes: seq<byte>)

  /** Page memory while one batch is being scattered: nothing rewrites it before the next read. */
  type Memory = nat -> byte

  function BytesAt(page: Memory, key: nat, length: nat): (s: seq<byte>)
    ensures |s| == length
  {
    seq(length, i requires 0 <= i => page(key + i))
  }

  /** `qio_check_string_bytes`: a sane array, no embedded nul, valid UTF-8. */
  ghost predicate Accepted(page: Memory, v: ByteArray)
  {
    && v.length >= 0
    && (v.length > 0 ==>
          && v.data != 0
          && 0 !in BytesAt(page, v.data, v.length)
          && Utf8.IsText(BytesAt(page, v.data, v.length)))
  }

  method CheckStringBytes(page: Memory, v: ByteArray) returns (ok: bool)
    ensures ok <==> Accepted(page, v)
  {
    if v.length < 0 || (v.length > 0 && v.data == 0) {
      return false;
    }
    if v.length > 0 {
      var s := BytesAt(page, v.data, v.length);
      if 0 in s {
        return false;
      }
      var at := Utf8.InvalidAt(s);
      return at == 0;
    }
    return true;
  }

  const CACHE_SIZE: nat := 1024
  const MAX_USED: nat := 512
  const TRIAL: nat := 4096

  datatype Entry = Entry(key: nat, length: int, slot: int)

  /** The position `step` probes after `h`, wrapping around. */
  function ProbeAt(h: nat, step: nat): (p: nat)
    requires h < CACHE_SIZE && step < 8
    ensures p < CACHE_SIZE && p == (h + step) % 1024
  {
    if h + step < CACHE_SIZE then h + step else h + step - CACHE_SIZE
  }

  class CharCache {
    const hash: nat -> nat
    const entries: array<Entry>
    const values: array<seq<byte>>
    var used: nat
    var lookups: nat
    var hits: nat
    var enabled: bool

    ghost predicate Filled(p: nat)
      requires p < entries.Length
      reads entries
    {
      entries[p].slot >= 0
    }

    /** Position `p` is reached from hash `h` in fewer than 8 probes over filled entries only. */
    ghost predicate Reaches(h: nat, p: nat)
      requires entries.Length == CACHE_SIZE && h < CACHE_SIZE
      reads entries
    {
      exists s: nat :: s < 8 && p == ProbeAt(h, s) && forall t: nat :: t < s ==> Filled(ProbeAt(h, t))
    }

    ghost predicate Shape()
      reads this`used, entries, values
    {
      && entries.Length == CACHE_SIZE && values.Length == CACHE_SIZE && used <= MAX_USED
      && (forall k :: hash(k) < CACHE_SIZE)
      && (forall p :: 0 <= p < CACHE_SIZE && Filled(p) ==> entries[p].slot < used && entries[p].length > 0)
    }

    /** Every entry is found again by probing, and no two hold the same value or the same slot. */
    ghost predicate Placed()
      requires Shape()
      reads this`used, entries, values
    {
      && (forall p :: 0 <= p < CACHE_SIZE && Filled(p) ==> Reaches(hash(entries[p].key), p))
      && (forall p, q :: 0 <= p < q < CACHE_SIZE && Filled(p) && Filled(q) ==>
            entries[p].slot != entries[q].slot
            && !(entries[p].key == entries[q].key && entries[p].length == entries[q].length))
    }

    /** Every cached string is the accepted string at its address. */
    ghost predicate Truthful(page: Memory)
      requires Shape()
      reads this`used, entries, values
    {
      forall p :: 0 <= p < CACHE_SIZE && Filled(p) ==>
        var e := entries[p];
        values[e.slot] == BytesAt(page, e.key, e.length) && Accepted(page, ByteArray(e.key, e.length))
    }

    ghost predicate Valid(page: Memory)
      reads this`used, entries, values
    {
      Shape() && Placed() && Truthful(page)
    }

    /** A place where `key` may be filed: free, reached from its hash, and the value is nowhere else. */
    ghost predicate Vacant(probe: nat, key: nat, length: int)
      requires Shape()
      reads this`used, entries, values
    {
      && probe < CACHE_SIZE && !Filled(probe) && Reaches(hash(key), probe)
      && !Has(key, length)
    }

    constructor (h: nat -> nat, ghost page: Memory)
      requires forall k :: h(k) < CACHE_SIZE
      ensures Valid(page) && fresh(entries) && fresh(values) && enabled && used == 0
    {
      hash := h;
      entries := new Entry[CACHE_SIZE](_ => Entry(0, 0, -1));
      values := new seq<byte>[CACHE_SIZE](_ => []);
      used, lookups, hits, enabled := 0, 0, 0, true;
    }

    /** Some entry is filed under this address and length. */
    ghost predicate Has(key: nat, length: int)
      requires Shape()
      reads this`used, entries, values
    {
      exists p :: 0 <= p < CACHE_SIZE && Files(p, key, length)
    }

    ghost predicate Files(p: nat, key: nat, length: int)
      requires p < entries.Length
      reads entries
    {
      Filled(p) && entries[p].key == key && entries[p].length == length
    }

    /** Up to 8 probes: the entry, if there is one; else where the value may go, if anywhere. */
    method Probe(key: nat, length: int) returns (at: Option<nat>, probe: nat)
      requires Shape() && Placed()
      ensures at.Some? <==> Has(key, length)
      ensures at.Some? ==> at.value < CACHE_SIZE && Files(at.value, key, length)
      ensures at.None? && probe < CACHE_SIZE ==> Vacant(probe, key, length)
      ensures at.None? && probe >= CACHE_SIZE ==> forall t: nat :: t < 8 ==> Filled(ProbeAt(hash(key), t))
    {
      var h := hash(key);
      for step := 0 to 8
        invariant forall t: nat :: t < step ==> Filled(ProbeAt(h, t)) && !Files(ProbeAt(h, t), key, length)
      {
        var p := ProbeAt(h, step);
        if entries[p].slot < 0 {
          MissIsVacant(key, length, step);
          return None, p;
        }
        if entries[p].key == key && entries[p].length == length {
          assert Files(p, key, length);
          return Some(p), CACHE_SIZE;
        }
      }
      NotInReach(key, length);
      return None, CACHE_SIZE;
    }

    lemma NotInReach(key: nat, length: int)
      requires Shape() && Placed()
      requires var h := hash(key); forall t: nat :: t < 8 ==> !Files(ProbeAt(h, t), key, length)
      ensures !Has(key, length)
    {
      var h := hash(key);
      forall p | 0 <= p < CACHE_SIZE ensures !Files(p, key, length) {
        if Filled(p) && entries[p].key == key {
          assert Reaches(h, p);
        }
      }
    }

    /**
     * `qio_charcache_get`: while the cache is on, whatever is filed is found. A hit returns the right
     * string; a miss says where the value may go. A trial with too few hits turns the cache off.
     */
    method Get(key: nat, length: int, ghost page: Memory) returns (cached: Option<seq<byte>>, probe: nat)
      requires Valid(page) && length > 0
      modifies this`lookups, this`hits, this`enabled
      ensures Valid(page)
      ensures lookups == old(lookups) + (if old(enabled) then 1 else 0)
      ensures enabled <==> old(enabled) && !(lookups == 4096 && old(hits) * 4 < lookups)
      ensures hits == old(hits) + (if cached.Some? then 1 else 0)
      ensures cached.Some? <==> enabled && Has(key, length)
      ensures cached.Some? ==> cached.value == BytesAt(page, key, length) && Accepted(page, ByteArray(key, length))
      ensures cached.None? && probe < CACHE_SIZE ==> Vacant(probe, key, length)
    {
      if !enabled {
        return None, CACHE_SIZE;
      }
      lookups := lookups + 1;
      if lookups == TRIAL && hits * 4 < lookups {
        enabled := false;
        return None, CACHE_SIZE;
      }
      var at;
      at, probe := Probe(key, length);
      if at.None? {
        return None, probe;
      }
      hits := hits + 1;
      cached := Some(values[entries[at.value].slot]);
    }

    /** The first free position in probing order: the value cannot stand behind it either. */
    lemma MissIsVacant(key: nat, length: int, step: nat)
      requires Shape() && Placed() && step < 8
      requires var h := hash(key); !Filled(ProbeAt(h, step))
      requires var h := hash(key); forall t: nat :: t < step ==>
               Filled(ProbeAt(h, t)) && !Files(ProbeAt(h, t), key, length)
      ensures Vacant(ProbeAt(hash(key), step), key, length) && !Has(key, length)
    {
      var h := hash(key);
      assert Reaches(h, ProbeAt(h, step));
      forall p | 0 <= p < CACHE_SIZE ensures !Files(p, key, length) {
        if Filled(p) && entries[p].key == key {
          assert Reaches(h, p);
        }
      }
    }

    /** `qio_charcache_put`: files a checked string, or drops it once half the table is in use. */
    method Put(probe: nat, key: nat, length: int, value: seq<byte>, ghost page: Memory)
      requires Valid(page) && length > 0
      requires probe < CACHE_SIZE ==> Vacant(probe, key, length)
      requires value == BytesAt(page, key, length) && Accepted(page, ByteArray(key, length))
      modifies this`used, entries, values
      ensures Valid(page)
      ensures used == old(used) + (if probe < 1024 && old(used) < 512 then 1 else 0)
      ensures probe < 1024 && old(used) < 512 ==> Has(key, length)
      ensures forall p :: 0 <= p < CACHE_SIZE && p != probe ==> entries[p] == old(entries[p])
      ensures forall i :: 0 <= i < old(used) ==> values[i] == old(values[i])
    {
      if probe >= CACHE_SIZE || used >= MAX_USED {
        return;
      }
      var slot := used;
      used := used + 1;
      values[slot] := value;
      entries[probe] := Entry(key, length, slot);
      assert Files(probe, key, length);
      forall p | 0 <= p < CACHE_SIZE && p != probe && Filled(p)
        ensures !(entries[p].key == key && entries[p].length == length)
      {
        assert !old(Files(p, key, length));
      }
      assert forall p :: 0 <= p < CACHE_SIZE && old(Filled(p)) ==> Filled(p);
      forall p | 0 <= p < CACHE_SIZE && Filled(p) ensures Reaches(hash(entries[p].key), p) {
        assert old(Reaches(hash(if p == probe then key else entries[p].key), p));
      }
    }
  }

  // ---- the scatter ----

  datatype Outcome = Column(cells: seq<Cell>) | BadRow(row: nat)

  /** The cell that a row becomes, unless it is refused. */
  ghost function InternedCell(page: Memory, row: Option<ByteArray>): (c: Option<Cell>)
  {
    match row
    case None => Some(NaString)
    case Some(v) => if Accepted(page, v) then Some(Str(BytesAt(page, v.data, v.length))) else None
  }

  /** Interning every row by itself: the first `n` cells, or the first row that is refused. */
  ghost function Interned(page: Memory, rows: seq<Option<ByteArray>>, n: nat): (r: Outcome)
    requires n <= |rows|
    ensures r.Column? ==> |r.cells| == n
    ensures r.BadRow? ==> r.row < n
  {
    if n == 0 then Column([])
    else
      var before := Interned(page, rows, n - 1);
      if before.BadRow? then before
      else
        var c := InternedCell(page, rows[n - 1]);
        if c.Some? then Column(before.cells + [c.value]) else BadRow(n - 1)
  }

  lemma {:induction false} InternedStops(page: Memory, rows: seq<Option<ByteArray>>, m: nat, n: nat)
    requires m <= n <= |rows| && Interned(page, rows, m).BadRow?
    ensures Interned(page, rows, n) == Interned(page, rows, m)
    decreases n
  {
    if m == n {
    } else {
      InternedStops(page, rows, m, n - 1);
    }
  }

  /** The string whose bytes lie at the address of `v`, in order. */
  ghost predicate HoldsBytes(page: Memory, v: ByteArray, c: Cell)
  {
    c.Str? && |c.bytes| == v.length && forall k :: 0 <= k < v.length ==> c.bytes[k] == page(v.data + k)
  }

  /** What a row has become: missing, or the bytes at its address, which were accepted. */
  ghost predicate CellHolds(page: Memory, row: Option<ByteArray>, c: Cell)
  {
    if row.None? then c == NaString else Accepted(page, row.value) && HoldsBytes(page, row.value, c)
  }

  ghost predicate ColumnHolds(page: Memory, rows: seq<Option<ByteArray>>, cells: seq<Cell>)
  {
    |rows| == |cells| && forall i :: 0 <= i < |cells| ==> CellHolds(page, rows[i], cells[i])
  }

  ghost predicate Refused(page: Memory, row: Option<ByteArray>)
  {
    row.Some? && !Accepted(page, row.value)
  }

  lemma {:induction false} InternedHolds(page: Memory, rows: seq<Option<ByteArray>>, n: nat)
    requires n <= |rows|
    ensures match Interned(page, rows, n)
            case Column(cells) => ColumnHolds(page, rows[..n], cells)
            case BadRow(i) => Refused(page, rows[i])
    decreases n
  {
    if n == 0 {
    } else {
      InternedHolds(page, rows, n - 1);
      assert rows[..n] == rows[..n - 1] + [rows[n - 1]];
    }
  }

  /** One present value: from the cache, or checked, interned and filed. */
  method StringAt(cache: CharCache, v: ByteArray, page: Memory) returns (r: Option<seq<byte>>)
    requires cache.Valid(page)
    modifies cache, cache.entries, cache.values
    ensures cache.Valid(page)
    ensures r == if Accepted(page, v) then Some(BytesAt(page, v.data, v.length)) else None
  {
    var probe := 0;
    if v.length > 0 {
      var cached;
      cached, probe := cache.Get(v.data, v.length, page);
      if cached.Some? {
        return cached;
      }
    }
    var ok := CheckStringBytes(page, v);
    if !ok {
      return None;
    }
    var made := BytesAt(page, v.data, v.length);
    if v.length > 0 {
      cache.Put(probe, v.data, v.length, made, page);
    }
    return Some(made);
  }

  /** Row `i` of a batch, whose dense value, if it has one, is next at `j`. */
  method NextCell(cache: CharCache, batch: Batch<ByteArray>, i: nat, j: nat, page: Memory)
    returns (cell: Option<Cell>, j': nat)
    requires cache.Valid(page) && batch.Valid() && i < batch.length && j == Rank(batch.defs, batch.maxDef, i)
    modifies cache, cache.entries, cache.values
    ensures cache.Valid(page) && j' == Rank(batch.defs, batch.maxDef, i + 1)
    ensures cell == InternedCell(page, batch.Row(i))
  {
    if !Present(batch.defs, batch.maxDef, i) {
      return Some(NaString), j;
    }
    RankMonotone(batch.defs, batch.maxDef, i + 1, batch.length);
    var s := StringAt(cache, batch.values[j], page);
    return if s.Some? then Some(Str(s.value)) else None, j + 1;
  }

  /** That row, in its place. */
  method ScatterRow(cache: CharCache, batch: Batch<ByteArray>, i: nat, j: nat, page: Memory, dst: array<Cell>,
                    offset: nat)
    returns (ok: bool, j': nat)
    requires cache.Valid(page) && batch.Valid() && i < batch.length && j == Rank(batch.defs, batch.maxDef, i)
    requires offset + i < dst.Length && dst as object != cache.entries && dst as object != cache.values
    requires Interned(page, batch.Rows(), i) == Column(dst[offset..offset + i])
    modifies cache, cache.entries, cache.values, dst
    ensures cache.Valid(page) && j' == Rank(batch.defs, batch.maxDef, i + 1)
    ensures ok ==> Interned(page, batch.Rows(), i + 1) == Column(dst[offset..offset + i + 1])
    ensures !ok ==> Interned(page, batch.Rows(), i + 1) == BadRow(i)
    ensures forall k :: 0 <= k < offset || offset + i < k < dst.Length ==> dst[k] == old(dst[k])
  {
    var cell;
    cell, j' := NextCell(cache, batch, i, j, page);
    ok := cell.Some?;
    if ok {
      Append(dst, offset, i, cell.value);
    }
  }

  /** Row by row, from the cache or interned. */
  method ScatterRows(page: Memory, hash: nat -> nat, batch: Batch<ByteArray>, dst: array<Cell>, offset: nat)
    returns (bad: Option<nat>)
    requires batch.Valid() && offset + batch.length <= dst.Length
    requires forall k :: hash(k) < CACHE_SIZE
    modifies dst
    ensures match Interned(page, batch.Rows(), batch.length)
            case Column(cells) => bad == None && dst[offset..offset + batch.length] == cells
            case BadRow(row) => bad == Some(row)
    ensures forall k :: 0 <= k < offset || offset + batch.length <= k < dst.Length ==> dst[k] == old(dst[k])
  {
    var cache := new CharCache(hash, page);
    ghost var rows := batch.Rows();
    var j := 0;
    bad := None;
    assert dst[offset..offset] == [];
    for i := 0 to batch.length
      invariant cache.Valid(page) && fresh(cache) && fresh(cache.entries) && fresh(cache.values)
      invariant j == Rank(batch.defs, batch.maxDef, i)
      invariant Interned(page, rows, i) == Column(dst[offset..offset + i])
      invariant forall k :: 0 <= k < offset || offset + batch.length <= k < dst.Length ==> dst[k] == old(dst[k])
    {
      var ok;
      ok, j := ScatterRow(cache, batch, i, j, page, dst, offset);
      if !ok {
        InternedStops(page, rows, i + 1, batch.length);
        return Some(i);
      }
    }
  }

  /**
   * The string branch of `qio_scatter_dense_column`. Whatever the addresses and the hash, the
   * cached scatter writes the cells that interning every row would, the bytes at its address in order,
   * or stops at the same row, the first that is refused.
   */
  method ScatterStrings(page: Memory, hash: nat -> nat, batch: Batch<ByteArray>, dst: array<Cell>, offset: nat)
    returns (bad: Option<nat>)
    requires batch.Valid() && offset + batch.length <= dst.Length
    requires forall k :: hash(k) < CACHE_SIZE
    modifies dst
    ensures match Interned(page, batch.Rows(), batch.length)
            case Column(cells) => bad == None && dst[offset..offset + batch.length] == cells
            case BadRow(row) => bad == Some(row)
    ensures bad.None? ==> ColumnHolds(page, batch.Rows(), dst[offset..offset + batch.length])
    ensures bad.Some? ==> bad.value < batch.length && Refused(page, batch.Rows()[bad.value])
    ensures forall k :: 0 <= k < offset || offset + batch.length <= k < dst.Length ==> dst[k] == old(dst[k])
  {
    bad := ScatterRows(page, hash, batch, dst, offset);
    InternedHolds(page, batch.Rows(), batch.length);
    assert batch.Rows()[..batch.length] == batch.Rows();
  }
}
