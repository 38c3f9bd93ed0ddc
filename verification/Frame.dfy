/**
 * Writing a data frame by row groups and chunks, and collecting it again. carquet is a sink and a
 * source of batches: dense values with definition levels.
 */
module Frame {
  import opened Levels
  import opened Options

  /** A column of logical rows; `None` is a missing value. */
  type Rows<T> = seq<Option<T>>

  /** A file: row groups of column chunks. */
  type File<T> = seq<seq<Rows<T>>>

  // ---- the dense layout of rows ----

  /** The present values, in order. */
  function Values<T>(rows: Rows<T>): (s: seq<T>)
    ensures |s| <= |rows|
  {
    if rows == [] then []
    else
      var r := rows[|rows| - 1];
      Values(rows[..|rows| - 1]) + (if r.Some? then [r.value] else [])
  }

  function LevelsOf<T>(rows: Rows<T>): (s: seq<int>)
  {
    seq(|rows|, i requires 0 <= i < |rows| => if rows[i].Some? then 1 else 0)
  }

  /** Rows as a batch: dense values, and definition levels unless the column is REQUIRED. */
  function Dense<T>(rows: Rows<T>, nullable: bool): (b: Batch<T>)
  {
    Batch(Values(rows), if nullable then Some(LevelsOf(rows)) else None, 1, |rows|)
  }

  predicate Storable<T>(rows: Rows<T>, nullable: bool)
  {
    nullable || forall i :: 0 <= i < |rows| ==> rows[i].Some?
  }

  /** The first `i` rows have as many dense values as the cursor counts. */
  lemma {:induction false} RankOfDense<T>(rows: Rows<T>, nullable: bool, i: nat)
    requires i <= |rows| && Storable(rows, nullable)
    ensures Rank(Dense(rows, nullable).defs, 1, i) == |Values(rows[..i])|
    decreases i
  {
    if i == 0 {
    } else {
      RankOfDense(rows, nullable, i - 1);
      assert rows[..i][..i - 1] == rows[..i - 1];
    }
  }

  lemma {:induction false} ValuesPrefix<T>(rows: Rows<T>, i: nat)
    requires i <= |rows|
    ensures Values(rows[..i]) <= Values(rows)
    decreases |rows|
  {
    if i < |rows| {
      var t := rows[..|rows| - 1];
      ValuesPrefix(t, i);
      assert t[..i] == rows[..i];
    } else {
      assert rows[..i] == rows;
    }
  }

  /** Densifying loses nothing: the batch stands for exactly the rows it was made from. */
  lemma DenseRows<T>(rows: Rows<T>, nullable: bool)
    requires Storable(rows, nullable)
    ensures Dense(rows, nullable).Valid() && Dense(rows, nullable).Rows() == rows
  {
    var b := Dense(rows, nullable);
    assert rows[..|rows|] == rows;
    RankOfDense(rows, nullable, |rows|);
    forall i | 0 <= i < |rows| ensures b.Row(i) == rows[i] {
      RankOfDense(rows, nullable, i);
      ValuesPrefix(rows, i + 1);
      assert rows[..i + 1][..i] == rows[..i];
      if rows[i].Some? {
        assert Values(rows[..i + 1]) == Values(rows[..i]) + [rows[i].value];
      }
    }
  }

  // ---- the sink ----

  /** carquet's writer: per column, the rows of the open group; and the groups closed so far. */
  class Sink<T> {
    var open: seq<Rows<T>>
    var groups: File<T>

    constructor (columns: nat)
      ensures open == seq(columns, _ => []) && groups == []
    {
      open, groups := seq(columns, _ => []), [];
    }

    /** All columns stand at the same logical row. */
    predicate Level()
      reads this
    {
      forall c, d :: 0 <= c < |open| && 0 <= d < |open| ==> |open[c]| == |open[d]|
    }

    /** `carquet_writer_write_batch`: the rows of a batch join the open chunk of their column. */
    method WriteBatch(c: nat, batch: Batch<T>)
      requires c < |open| && batch.Valid()
      modifies this
      ensures open == old(open)[c := old(open)[c] + batch.Rows()] && groups == old(groups)
    {
      open := open[c := open[c] + batch.Rows()];
    }

    /** `carquet_writer_new_row_group`: refused unless the columns are level. */
    method NewRowGroup() returns (ok: bool)
      modifies this
      ensures ok == old(Level())
      ensures if ok then groups == old(groups) + [old(open)] && open == seq(|old(open)|, _ => [])
              else groups == old(groups) && open == old(open)
    {
      ok := forall c, d :: 0 <= c < |open| && 0 <= d < |open| ==> |open[c]| == |open[d]|;
      if ok {
        groups, open := groups + [open], seq(|open|, _ => []);
      }
    }
  }

  // ---- writing ----

  const WRITE_CHUNK: nat := 65536

  /** One chunk of one column: values packed by `k`, a level per row when there are levels. */
  method Densify<T(0)>(rows: Rows<T>, nullable: bool, buf: array<T>, def: array<int>) returns (ok: bool, k: nat)
    requires |rows| <= buf.Length && (nullable ==> |rows| <= def.Length) && buf as object != def as object
    modifies buf, def
    ensures ok <==> Storable(rows, nullable)
    ensures k <= |rows| && buf[..k] == Values(rows)
    ensures nullable ==> def[..|rows|] == LevelsOf(rows)
  {
    k := 0;
    for i := 0 to |rows|
      invariant k <= i && buf[..k] == Values(rows[..i])
      invariant nullable ==> forall j :: 0 <= j < i ==> def[j] == if rows[j].Some? then 1 else 0
      invariant k == i <==> forall j :: 0 <= j < i ==> rows[j].Some?
    {
      assert rows[..i + 1][..i] == rows[..i];
      if rows[i].Some? {
        ghost var packed := buf[..k];
        buf[k] := rows[i].value;
        assert buf[..k + 1] == packed + [rows[i].value];
        k := k + 1;
        if nullable {
          def[i] := 1;
        }
      } else if nullable {
        def[i] := 0;
      }
    }
    assert rows[..|rows|] == rows;
    ok := nullable || k == |rows|;
  }

  /** One chunk: densified into the scratch buffers and handed to the sink. */
  method WriteChunk<T(0)>(sink: Sink<T>, c: nat, part: Rows<T>, nullable: bool, buf: array<T>, def: array<int>)
    returns (ok: bool)
    requires c < |sink.open| && buf as object != def as object
    requires |part| <= buf.Length && |part| <= def.Length
    modifies sink, buf, def
    ensures ok <==> Storable(part, nullable)
    ensures sink.groups == old(sink.groups)
    ensures sink.open == if ok then old(sink.open)[c := old(sink.open)[c] + part] else old(sink.open)
  {
    var k;
    ok, k := Densify(part, nullable, buf, def);
    if ok {
      var batch := Batch(buf[..k], if nullable then Some(def[..|part|]) else None, 1, |part|);
      DenseRows(part, nullable);
      sink.WriteBatch(c, batch);
    }
  }

  /** A column's rows `[start, end)`, chunk by chunk, into the open group. */
  method WriteColumn<T(0)>(sink: Sink<T>, c: nat, rows: Rows<T>, start: nat, end: nat, nullable: bool)
    returns (ok: bool)
    requires c < |sink.open| && start <= end <= |rows|
    modifies sink
    ensures sink.groups == old(sink.groups) && |sink.open| == |old(sink.open)|
    ensures ok <==> Storable(rows[start..end], nullable)
    ensures ok ==> sink.open[c] == old(sink.open)[c] + rows[start..end]
    ensures forall d :: 0 <= d < |sink.open| && d != c ==> sink.open[d] == old(sink.open)[d]
  {
    var chunk := if |rows| < WRITE_CHUNK then |rows| else WRITE_CHUNK;
    if chunk < 1 {
      chunk := 1;
    }
    var buf := new T[chunk];
    var def := new int[chunk];
    var row0 := start;
    while row0 < end
      invariant start <= row0 <= end && Storable(rows[start..row0], nullable)
      invariant sink.groups == old(sink.groups) && |sink.open| == |old(sink.open)|
      invariant sink.open[c] == old(sink.open)[c] + rows[start..row0]
      invariant forall d :: 0 <= d < |sink.open| && d != c ==> sink.open[d] == old(sink.open)[d]
    {
      var len := if end - row0 > chunk then chunk else end - row0;
      ok := WriteChunk(sink, c, rows[row0..row0 + len], nullable, buf, def);
      StorableSplit(rows, start, row0, row0 + len, end, nullable);
      if !ok {
        return;
      }
      assert rows[start..row0 + len] == rows[start..row0] + rows[row0..row0 + len];
      row0 := row0 + len;
    }
    ok := true;
  }

  lemma StorableSplit<T>(rows: Rows<T>, a: nat, b: nat, c: nat, d: nat, nullable: bool)
    requires a <= b <= c <= d <= |rows| && Storable(rows[a..b], nullable)
    ensures Storable(rows[b..c], nullable) <==> Storable(rows[a..c], nullable)
    ensures Storable(rows[a..d], nullable) ==> Storable(rows[b..c], nullable)
  {
    assert forall i :: a <= i < b ==> rows[i] == rows[a..b][i - a];
    assert forall i :: b <= i < c ==> rows[i] == rows[b..c][i - b];
    assert forall i :: a <= i < c ==> rows[i] == rows[a..c][i - a];
    assert forall i :: a <= i < d ==> rows[i] == rows[a..d][i - a];
  }

  /** The slice `[a, b)` of every column. */
  function Slice<T>(x: seq<Rows<T>>, a: nat, b: nat): (s: seq<Rows<T>>)
    requires a <= b && forall c :: 0 <= c < |x| ==> b <= |x[c]|
    ensures |s| == |x|
  {
    seq(|x|, c requires 0 <= c < |x| => x[c][a..b])
  }

  /** One row group: every column advances through it before the next group begins. */
  method WriteGroup<T(0)>(sink: Sink<T>, x: seq<Rows<T>>, nullable: seq<bool>, start: nat, end: nat) returns (ok: bool)
    requires |nullable| == |x| && start <= end && forall c :: 0 <= c < |x| ==> end <= |x[c]|
    requires sink.open == seq(|x|, _ => [])
    modifies sink
    ensures sink.groups == old(sink.groups)
    ensures ok <==> forall c :: 0 <= c < |x| ==> Storable(x[c][start..end], nullable[c])
    ensures ok ==> sink.open == Slice(x, start, end) && sink.Level()
  {
    for c := 0 to |x|
      invariant |sink.open| == |x| && sink.groups == old(sink.groups)
      invariant forall d :: 0 <= d < c ==> Storable(x[d][start..end], nullable[d])
      invariant forall d :: 0 <= d < |x| ==> sink.open[d] == if d < c then x[d][start..end] else []
    {
      ok := WriteColumn(sink, c, x[c], start, end, nullable[c]);
      if !ok {
        return;
      }
    }
    ok := true;
  }

  /** The row groups of a frame of `nrow` rows, `size` rows each. */
  function GroupCount(nrow: nat, size: nat): (n: nat)
    requires size >= 1
    ensures n >= 1
  {
    var n := (nrow + size - 1) / size;
    if n < 1 then 1 else n
  }

  function GroupEnd(nrow: nat, size: nat, g: nat): (end: nat)
    ensures end <= nrow
  {
    if g * size + size > nrow then nrow else g * size + size
  }

  /** The groups tile the frame: each starts where the last ended, none but a zero-row frame's is empty. */
  lemma GroupsTile(nrow: nat, size: nat, g: nat)
    requires size >= 1 && g < GroupCount(nrow, size)
    ensures g * size <= GroupEnd(nrow, size, g)
    ensures nrow > 0 ==> g * size < GroupEnd(nrow, size, g)
    ensures g + 1 < GroupCount(nrow, size) ==> GroupEnd(nrow, size, g) == (g + 1) * size
    ensures g + 1 == GroupCount(nrow, size) ==> GroupEnd(nrow, size, g) == nrow
  {
    var q := (nrow + size - 1) / size;
    var r := (nrow + size - 1) % size;
    assert nrow + size - 1 == q * size + r;
    assert (g + 1) * size == g * size + size;
    if q >= 1 {
      assert g <= q - 1;
      MulMonotone(g, q - 1, size);
      assert (q - 1) * size == q * size - size;
      if g + 1 < q {
        MulMonotone(g + 1, q - 1, size);
      }
    } else {
      assert q * size == 0;
    }
  }

  lemma MulMonotone(a: nat, b: nat, m: nat)
    requires a <= b
    ensures a * m <= b * m
  {
  }

  /** `file` holds the frame `x`, group by group. */
  ghost predicate HoldsFrame<T>(file: File<T>, x: seq<Rows<T>>, nrow: nat, size: nat)
    requires size >= 1 && forall c :: 0 <= c < |x| ==> |x[c]| == nrow
  {
    && |file| == GroupCount(nrow, size)
    && forall g :: 0 <= g < |file| ==>
         g * size <= GroupEnd(nrow, size, g) && file[g] == Slice(x, g * size, GroupEnd(nrow, size, g))
  }

  /** The group size in use: the one asked for, or the whole frame. */
  function GroupRows(nrow: nat, rowGroupRows: nat): (size: nat)
    ensures size >= 1
  {
    if rowGroupRows > 0 then rowGroupRows else if nrow < 1 then 1 else nrow
  }

  /** The groups of `size` rows, one after the other. */
  method WriteGroups<T(0)>(x: seq<Rows<T>>, nrow: nat, nullable: seq<bool>, size: nat)
    returns (ok: bool, file: File<T>)
    requires |nullable| == |x| && size >= 1 && forall c :: 0 <= c < |x| ==> |x[c]| == nrow
    ensures ok <==> forall c :: 0 <= c < |x| ==> Storable(x[c], nullable[c])
    ensures ok ==> HoldsFrame(file, x, nrow, size)
  {
    var count := GroupCount(nrow, size);
    var sink := new Sink<T>(|x|);
    file := [];
    var start := 0;
    for g := 0 to count
      invariant start == (if g < count then g * size else nrow) && start <= nrow
      invariant |sink.groups| == (if g < count then g else count - 1)
      invariant forall h :: 0 <= h < |sink.groups| ==>
                  h * size <= GroupEnd(nrow, size, h) && sink.groups[h] == Slice(x, h * size, GroupEnd(nrow, size, h))
      invariant g < count ==> sink.open == seq(|x|, _ => [])
      invariant g == count ==> (count - 1) * size <= nrow && sink.open == Slice(x, (count - 1) * size, nrow)
      invariant forall c :: 0 <= c < |x| ==> Storable(x[c][..start], nullable[c])
    {
      GroupsTile(nrow, size, g);
      var end := GroupEnd(nrow, size, g);
      ok := WriteGroup(sink, x, nullable, start, end);
      PrefixesStorable(x, nullable, start, end);
      if !ok {
        return;
      }
      if g + 1 < count {
        var level := sink.NewRowGroup();
      }
      start := end;
    }
    GroupsTile(nrow, size, count - 1);
    file := sink.groups + [sink.open];
    assert forall c :: 0 <= c < |x| ==> x[c][..nrow] == x[c];
    ok := true;
  }

  /**
   * Every group but the last has `rows` rows in each of its columns, and the last has what remains; with
   * no such number there is one group, the frame itself.
   */
  ghost predicate GroupedBy<T>(file: File<T>, x: seq<Rows<T>>, nrow: nat, rows: nat)
  {
    if rows == 0 then file == [x]
    else
      && (|file| - 1) * rows <= nrow <= |file| * rows
      && forall g, c :: 0 <= g < |file| && 0 <= c < |x| ==>
           |file[g]| == |x| && |file[g][c]| == if g < |file| - 1 then rows else nrow - g * rows
  }

  /**
   * The data part of `qio_write_body`: fails exactly when a REQUIRED column has a missing value;
   * otherwise every group holds its slice of every column, all columns level at each boundary.
   */
  method WriteFrame<T(0)>(x: seq<Rows<T>>, nrow: nat, nullable: seq<bool>, rowGroupRows: nat)
    returns (ok: bool, file: File<T>)
    requires |nullable| == |x| && forall c :: 0 <= c < |x| ==> |x[c]| == nrow
    ensures ok <==> forall c :: 0 <= c < |x| ==> Storable(x[c], nullable[c])
    ensures ok ==> HoldsFrame(file, x, nrow, GroupRows(nrow, rowGroupRows))
    ensures ok ==> GroupedBy(file, x, nrow, rowGroupRows)
  {
    ok, file := WriteGroups(x, nrow, nullable, GroupRows(nrow, rowGroupRows));
    if ok {
      GroupSizes(file, x, nrow, rowGroupRows);
    }
  }

  lemma GroupSizes<T>(file: File<T>, x: seq<Rows<T>>, nrow: nat, rowGroupRows: nat)
    requires forall c :: 0 <= c < |x| ==> |x[c]| == nrow
    requires HoldsFrame(file, x, nrow, GroupRows(nrow, rowGroupRows))
    ensures GroupedBy(file, x, nrow, rowGroupRows)
  {
    var size := GroupRows(nrow, rowGroupRows);
    if rowGroupRows == 0 {
      OneGroup(nrow);
      assert forall c :: 0 <= c < |x| ==> x[c][0..nrow] == x[c];
      assert file[0] == x;
    } else {
      forall g | 0 <= g < |file|
        ensures GroupEnd(nrow, size, g) - g * size == if g < |file| - 1 then size else nrow - g * size
      {
        GroupIsFull(nrow, size, g);
      }
      GroupIsFull(nrow, size, |file| - 1);
    }
  }

  lemma GroupIsFull(nrow: nat, size: nat, g: nat)
    requires size >= 1 && g < GroupCount(nrow, size)
    ensures GroupEnd(nrow, size, g) - g * size == if g + 1 < GroupCount(nrow, size) then size else nrow - g * size
    ensures g + 1 == GroupCount(nrow, size) ==> g * size <= nrow <= (g + 1) * size
  {
    GroupsTile(nrow, size, g);
    NextGroup(g, size);
  }

  lemma NextGroup(g: nat, size: nat)
    ensures (g + 1) * size == g * size + size
  {
  }

  lemma OneGroup(nrow: nat)
    ensures GroupCount(nrow, GroupRows(nrow, 0)) == 1 && GroupEnd(nrow, GroupRows(nrow, 0), 0) == nrow
  {
    if nrow > 0 {
      assert (nrow + nrow - 1) / nrow == 1;
    }
  }

  lemma PrefixesStorable<T>(x: seq<Rows<T>>, nullable: seq<bool>, a: nat, b: nat)
    requires |nullable| == |x| && a <= b && forall c :: 0 <= c < |x| ==> b <= |x[c]|
    requires forall c :: 0 <= c < |x| ==> Storable(x[c][..a], nullable[c])
    ensures (forall c :: 0 <= c < |x| ==> Storable(x[c][a..b], nullable[c]))
            <==> (forall c :: 0 <= c < |x| ==> Storable(x[c][..b], nullable[c]))
    ensures forall c :: 0 <= c < |x| && Storable(x[c], nullable[c]) ==> Storable(x[c][a..b], nullable[c])
  {
    forall c | 0 <= c < |x|
      ensures Storable(x[c][a..b], nullable[c]) <==> Storable(x[c][..b], nullable[c])
      ensures Storable(x[c], nullable[c]) ==> Storable(x[c][a..b], nullable[c])
    {
      StorableSplit(x[c], 0, a, b, |x[c]|, nullable[c]);
      assert x[c][0..|x[c]|] == x[c];
    }
  }
}
