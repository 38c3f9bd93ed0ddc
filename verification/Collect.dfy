/** Collecting a file into R vectors, sequentially: offsets by prefix sums, chunks by batches. */
module Collect {
  import opened Bytes
  import opened Levels
  import opened Options
  import opened Columns
  import opened Frame

  // ---- the source ----

  /** A stored column chunk: its rows, and the row, if any, whose page does not decode. */
  datatype Chunk<T> = Chunk(rows: Rows<T>, nullable: bool, bad: Option<nat>)
  {
    predicate Valid()
    {
      Storable(rows, nullable)
    }

    /** The first `n` rows are there and decode. */
    predicate Readable(n: nat)
    {
      n <= |rows| && (bad.Some? ==> n <= bad.value)
    }
  }

  /** A carquet column reader: a cursor over a chunk. */
  class ColumnReader<T> {
    const chunk: Chunk<T>
    var pos: nat

    constructor (chunk: Chunk<T>)
      ensures this.chunk == chunk && pos == 0
    {
      this.chunk := chunk;
      pos := 0;
    }

    /**
     * `carquet_column_read_batch`: up to `want` rows from the cursor, fewer at the end of the chunk or
     * before a page that does not decode, and a failure only when the cursor stands at such a page.
     * A read of no rows loads the page at the cursor.
     */
    method ReadBatch(want: nat) returns (batch: Option<Batch<T>>)
      requires chunk.Valid() && chunk.Readable(pos)
      modifies this`pos
      ensures old(pos) <= pos && chunk.Readable(pos)
      ensures batch.None? <==> chunk.bad == Some(old(pos)) && old(pos) < |chunk.rows|
      ensures batch.None? ==> pos == old(pos)
      ensures batch.Some? ==>
                && batch.value.Valid() && batch.value.length == pos - old(pos) <= want
                && batch.value.Rows() == chunk.rows[old(pos)..pos]
                && (pos - old(pos) < want ==> !chunk.Readable(pos + 1))
    {
      if chunk.bad == Some(pos) && pos < |chunk.rows| {
        return None;
      }
      var left := if chunk.bad.Some? && chunk.bad.value < |chunk.rows| then chunk.bad.value - pos
        else |chunk.rows| - pos;
      var n := if want <= left then want else left;
      var part := chunk.rows[pos..pos + n];
      StorableSlice(chunk.rows, chunk.nullable, pos, pos + n);
      DenseRows(part, chunk.nullable);
      batch := Some(Dense(part, chunk.nullable));
      pos := pos + n;
    }
  }

  /** A batch of `want` rows, or none: what every caller makes of a short read. */
  method ReadExactly<T>(reader: ColumnReader<T>, want: nat) returns (batch: Option<Batch<T>>)
    requires reader.chunk.Valid() && reader.chunk.Readable(reader.pos) && want >= 1
    modifies reader`pos
    ensures batch.Some? <==> reader.chunk.Readable(old(reader.pos) + want)
    ensures batch.Some? ==>
              && reader.pos == old(reader.pos) + want && batch.value.Valid() && batch.value.length == want
              && batch.value.Rows() == reader.chunk.rows[old(reader.pos)..reader.pos]
  {
    batch := reader.ReadBatch(want);
    if batch.Some? && batch.value.length != want {
      batch := None;
    }
  }

  lemma StorableSlice<T>(rows: Rows<T>, nullable: bool, a: nat, b: nat)
    requires Storable(rows, nullable) && a <= b <= |rows|
    ensures Storable(rows[a..b], nullable)
  {
  }

  /** The rows up to `n` stand in the vector, and the flag tells whether one was lost. */
  ghost predicate Placed<T, R>(rule: Rule<T, R>, rows: Rows<T>, n: nat, dst: array<R>, offset: nat, lost: bool)
    requires n <= |rows| && offset + n <= dst.Length
    reads dst
  {
    dst[offset..offset + n] == Cells(rule, rows[..n]) && (lost <==> Loses(rule, rows[..n]))
  }

  lemma PlacedMore<T, R>(rule: Rule<T, R>, rows: Rows<T>, a: nat, b: nat)
    requires a <= b <= |rows|
    ensures Cells(rule, rows[..b]) == Cells(rule, rows[..a]) + Cells(rule, rows[a..b])
    ensures Loses(rule, rows[..b]) <==> Loses(rule, rows[..a]) || Loses(rule, rows[a..b])
  {
    assert rows[..b] == rows[..a] + rows[a..b];
    CellsConcat(rule, rows[..a], rows[a..b]);
  }

  /** A batch behind the `n` cells that stand from `offset` on. */
  method ScatterBehind<T, R>(rule: Rule<T, R>, batch: Batch<T>, dst: array<R>, offset: nat, n: nat) returns (any: bool)
    requires batch.Valid() && offset + n + batch.length <= dst.Length
    modifies dst
    ensures dst[offset..offset + n + batch.length] == old(dst[offset..offset + n]) + Cells(rule, batch.Rows())
    ensures any <==> Loses(rule, batch.Rows())
    ensures forall k :: 0 <= k < offset || offset + n + batch.length <= k < dst.Length ==> dst[k] == old(dst[k])
  {
    any := ScatterDense(rule, batch, dst, offset + n);
    assert dst[offset..offset + n] == old(dst[offset..offset + n]);
    assert dst[offset..offset + n + batch.length]
      == dst[offset..offset + n] + dst[offset + n..offset + n + batch.length];
  }

  /** One batch: read, and scattered behind the rows before it; or it cannot be read in full. */
  method CollectBatch<T, R>(reader: ColumnReader<T>, rule: Rule<T, R>, want: nat, dst: array<R>, offset: nat,
                            lost: bool)
    returns (ok: bool, lost': bool)
    requires reader.chunk.Valid() && reader.chunk.Readable(reader.pos) && want >= 1
             && offset + reader.pos + want <= dst.Length
    requires Placed(rule, reader.chunk.rows, reader.pos, dst, offset, lost)
    modifies reader`pos, dst
    ensures ok <==> reader.chunk.Readable(old(reader.pos) + want)
    ensures ok ==> reader.pos == old(reader.pos) + want
                   && Placed(rule, reader.chunk.rows, reader.pos, dst, offset, lost')
    ensures forall k :: 0 <= k < offset || offset + old(reader.pos) + want <= k < dst.Length ==> dst[k] == old(dst[k])
  {
    var read := reader.pos;
    lost' := lost;
    var batch := ReadExactly(reader, want);
    if batch.None? {
      return false, lost;
    }
    PlacedMore(rule, reader.chunk.rows, read, read + want);
    var any := ScatterBehind(rule, batch.value, dst, offset, read);
    return true, lost || any;
  }

  /**
   * `qio_column_task_run`, and the main thread's loop over a chunk. Whatever the batch size, it
   * succeeds exactly when the expected rows are readable, and then places every one of them.
   */
  method CollectChunk<T, R>(chunk: Chunk<T>, rule: Rule<T, R>, expected: nat, batchSize: nat, dst: array<R>,
                            offset: nat)
    returns (ok: bool, lost: bool)
    requires chunk.Valid() && offset + expected <= dst.Length && batchSize >= 1
    modifies dst
    ensures ok <==> chunk.Readable(expected)
    ensures ok ==> dst[offset..offset + expected] == Cells(rule, chunk.rows[..expected])
    ensures ok ==> (lost <==> Loses(rule, chunk.rows[..expected]))
    ensures forall k :: 0 <= k < offset || offset + expected <= k < dst.Length ==> dst[k] == old(dst[k])
  {
    var reader := new ColumnReader(chunk);
    lost := false;
    while reader.pos < expected
      invariant reader.chunk == chunk && reader.pos <= expected && chunk.Readable(reader.pos)
      invariant Placed(rule, chunk.rows, reader.pos, dst, offset, lost)
      invariant forall k :: 0 <= k < offset || offset + expected <= k < dst.Length ==> dst[k] == old(dst[k])
      decreases expected - reader.pos
    {
      var want := if expected - reader.pos > batchSize then batchSize else expected - reader.pos;
      ok, lost := CollectBatch(reader, rule, want, dst, offset, lost);
      if !ok {
        return;
      }
    }
    ok := true;
  }

  // ---- how far a chunk can be read ----

  /** The leading rows of a chunk that can be read, of `n` expected. */
  function GoodRows<T>(chunk: Chunk<T>, n: nat): (g: nat)
    ensures g <= n && chunk.Readable(g) && (g == n <==> chunk.Readable(n))
    ensures forall m :: g < m <= n ==> !chunk.Readable(m)
  {
    var m := if n <= |chunk.rows| then n else |chunk.rows|;
    if chunk.bad.Some? && chunk.bad.value < m then chunk.bad.value else m
  }

  /** The rows of whole batches among `g`. */
  function WholeBatches(g: nat, size: nat): (n: nat)
    requires size >= 1
    ensures n <= g
  {
    if g < size then 0 else size + WholeBatches(g - size, size)
  }

  /** A whole number of batches, and less than one more. */
  lemma {:induction false} WholeBatchesOf(whole: nat, g: nat, size: nat)
    requires size >= 1 && WholeBatches(whole, size) == whole <= g < whole + size
    ensures WholeBatches(g, size) == whole
    decreases whole
  {
    if whole < size {
    } else {
      WholeBatchesOf(whole - size, g - size, size);
    }
  }

  lemma {:induction false} WholeBatchesNext(whole: nat, size: nat)
    requires size >= 1 && WholeBatches(whole, size) == whole
    ensures WholeBatches(whole + size, size) == whole + size
  {
  }

  // ---- which groups, and where they go ----

  /** A selected row group: its index in the file, its rows, and its first row in the result. */
  datatype GroupPlan = GroupPlan(index: nat, rows: nat, offset: nat)

  /** The rows of the first `g` groups that are selected. */
  function SelectedCount(numRows: seq<nat>, mask: seq<bool>, g: nat): (n: nat)
    requires g <= |numRows| == |mask|
  {
    if g == 0 then 0 else SelectedCount(numRows, mask, g - 1) + (if mask[g - 1] then numRows[g - 1] else 0)
  }

  lemma {:induction false} SelectedCountMonotone(numRows: seq<nat>, mask: seq<bool>, g: nat, h: nat)
    requires g <= h <= |numRows| == |mask|
    ensures SelectedCount(numRows, mask, g) <= SelectedCount(numRows, mask, h)
  {
    if g == h {
    } else {
      SelectedCountMonotone(numRows, mask, g, h - 1);
    }
  }

  function PlanEnd(plan: seq<GroupPlan>): (n: nat)
  {
    if plan == [] then 0 else plan[|plan| - 1].offset + plan[|plan| - 1].rows
  }

  /** The planned groups lie back to back from row 0, and none is empty. */
  ghost predicate Tiles(plan: seq<GroupPlan>)
  {
    && (forall k :: 0 <= k < |plan| ==> plan[k].rows > 0)
    && (forall k :: 0 <= k < |plan| ==> plan[k].offset == PlanEnd(plan[..k]))
  }

  /** The planned groups come in file order. */
  ghost predicate Ascending(plan: seq<GroupPlan>)
  {
    forall j, k :: 0 <= j < k < |plan| ==> plan[j].index < plan[k].index
  }

  /** Each planned group is selected, has its recorded rows, and follows the selected rows before it. */
  ghost predicate Agrees(plan: seq<GroupPlan>, numRows: seq<nat>, mask: seq<bool>, g: nat)
    requires g <= |numRows| == |mask|
  {
    forall k :: 0 <= k < |plan| ==>
      && plan[k].index < g && mask[plan[k].index] && plan[k].rows == numRows[plan[k].index]
      && plan[k].offset == SelectedCount(numRows, mask, plan[k].index)
  }

  /** The plan names every selected group that has rows, and nothing else. */
  ghost predicate Names(plan: seq<GroupPlan>, numRows: seq<nat>, mask: seq<bool>, g: nat)
    requires g <= |numRows| == |mask|
  {
    && Agrees(plan, numRows, mask, g)
    && forall h :: 0 <= h < g && mask[h] && numRows[h] > 0 ==> exists k :: 0 <= k < |plan| && plan[k].index == h
  }

  /** A plan for the first `g` groups of the file. */
  ghost predicate IsPlan(plan: seq<GroupPlan>, numRows: seq<nat>, mask: seq<bool>, g: nat)
    requires g <= |numRows| == |mask|
  {
    && Tiles(plan) && Ascending(plan) && Names(plan, numRows, mask, g)
    && PlanEnd(plan) == SelectedCount(numRows, mask, g)
  }

  lemma PlanTiles(plan: seq<GroupPlan>, g: nat, rows: nat)
    requires Tiles(plan) && rows > 0
    ensures Tiles(plan + [GroupPlan(g, rows, PlanEnd(plan))])
  {
    var next := plan + [GroupPlan(g, rows, PlanEnd(plan))];
    forall k | 0 <= k < |next| ensures next[k].offset == PlanEnd(next[..k]) {
      assert next[..k] == if k < |plan| then plan[..k] else plan;
    }
  }

  lemma PlanNames(plan: seq<GroupPlan>, numRows: seq<nat>, mask: seq<bool>, g: nat, offset: nat)
    requires g < |numRows| == |mask| && mask[g] && Names(plan, numRows, mask, g)
    requires offset == SelectedCount(numRows, mask, g)
    ensures Names(plan + [GroupPlan(g, numRows[g], offset)], numRows, mask, g + 1)
  {
    var next := plan + [GroupPlan(g, numRows[g], offset)];
    forall h | 0 <= h < g + 1 && mask[h] && numRows[h] > 0 ensures exists k :: 0 <= k < |next| && next[k].index == h {
      if h < g {
        var k :| 0 <= k < |plan| && plan[k].index == h;
        assert next[k].index == h;
      } else {
        assert next[|plan|].index == h;
      }
    }
  }

  lemma PlanAdds(plan: seq<GroupPlan>, numRows: seq<nat>, mask: seq<bool>, g: nat)
    requires g < |numRows| == |mask| && mask[g] && numRows[g] > 0 && IsPlan(plan, numRows, mask, g)
    ensures IsPlan(plan + [GroupPlan(g, numRows[g], PlanEnd(plan))], numRows, mask, g + 1)
  {
    PlanTiles(plan, g, numRows[g]);
    PlanNames(plan, numRows, mask, g, PlanEnd(plan));
  }

  lemma PlanSkips(plan: seq<GroupPlan>, numRows: seq<nat>, mask: seq<bool>, g: nat)
    requires g < |numRows| == |mask| && !(mask[g] && numRows[g] > 0) && IsPlan(plan, numRows, mask, g)
    ensures IsPlan(plan, numRows, mask, g + 1)
  {
  }

  /** The selection loop of `qio_collect_body`; its two row-count checks never fire on its own total. */
  method PlanGroups(numRows: seq<nat>, mask: seq<bool>, total: nat) returns (ok: bool, plan: seq<GroupPlan>)
    requires |numRows| == |mask|
    ensures ok <==> total == SelectedCount(numRows, mask, |mask|)
    ensures ok ==> IsPlan(plan, numRows, mask, |mask|)
  {
    plan := [];
    var offset := 0;
    for g := 0 to |mask|
      invariant offset == SelectedCount(numRows, mask, g)
      invariant IsPlan(plan, numRows, mask, g)
    {
      if !mask[g] || numRows[g] == 0 {
        PlanSkips(plan, numRows, mask, g);
      } else {
        if offset + numRows[g] > total {
          SelectedCountMonotone(numRows, mask, g + 1, |mask|);
          return false, plan;
        }
        PlanAdds(plan, numRows, mask, g);
        plan := plan + [GroupPlan(g, numRows[g], offset)];
        offset := offset + numRows[g];
      }
    }
    ok := offset == total;
  }

  // ---- the rows of a selection ----

  /** Row sequences put one after the other. */
  function Joined<T>(parts: seq<Rows<T>>): (rows: Rows<T>)
  {
    if parts == [] then [] else Joined(parts[..|parts| - 1]) + parts[|parts| - 1]
  }

  lemma {:induction false} PlanEndMonotone(plan: seq<GroupPlan>, k: nat)
    requires Tiles(plan) && k <= |plan|
    ensures PlanEnd(plan[..k]) <= PlanEnd(plan)
    decreases |plan| - k
  {
    if k < |plan| {
      PlanEndMonotone(plan, k + 1);
      assert plan[..k + 1][k] == plan[k];
    } else {
      assert plan[..k] == plan;
    }
  }

  lemma PlanStep(plan: seq<GroupPlan>, s: nat)
    requires Tiles(plan) && s < |plan|
    ensures plan[s].offset == PlanEnd(plan[..s]) && PlanEnd(plan[..s + 1]) == plan[s].offset + plan[s].rows
    ensures PlanEnd(plan[..s + 1]) <= PlanEnd(plan)
  {
    assert plan[..s + 1][s] == plan[s];
    PlanEndMonotone(plan, s + 1);
  }

  /** The first row of planned group `s`, or the end. */
  function StartOf(plan: seq<GroupPlan>, s: nat): (n: nat)
    requires s <= |plan|
  {
    if s < |plan| then plan[s].offset else PlanEnd(plan)
  }

  lemma FirstStart(plan: seq<GroupPlan>)
    requires Tiles(plan)
    ensures StartOf(plan, 0) == 0
  {
    assert plan != [] ==> plan[0].offset == PlanEnd(plan[..0]);
  }

  lemma NextStart(plan: seq<GroupPlan>, s: nat)
    requires Tiles(plan) && s < |plan|
    ensures StartOf(plan, s + 1) == plan[s].offset + plan[s].rows <= PlanEnd(plan)
  {
    PlanStep(plan, s);
    assert plan[..|plan|] == plan;
  }

  // ---- the groups of a file just written ----

  function GroupSize(nrow: nat, size: nat, g: nat): (n: nat)
  {
    if g * size <= GroupEnd(nrow, size, g) then GroupEnd(nrow, size, g) - g * size else 0
  }

  /** The row counts that the footer records. */
  function FooterRows(nrow: nat, size: nat): (s: seq<nat>)
    requires size >= 1
  {
    seq(GroupCount(nrow, size), g requires 0 <= g => GroupSize(nrow, size, g))
  }

  function AllOf(n: nat): (mask: seq<bool>)
  {
    seq(n, _ => true)
  }

  /** Selecting every group: the rows before group `g` are `g` group sizes, and in the end all rows. */
  lemma {:induction false} FooterCount(nrow: nat, size: nat, g: nat)
    requires size >= 1 && g <= GroupCount(nrow, size)
    ensures SelectedCount(FooterRows(nrow, size), AllOf(GroupCount(nrow, size)), g)
            == if g < GroupCount(nrow, size) then g * size else nrow
    decreases g
  {
    if g == 0 {
    } else {
      FooterCount(nrow, size, g - 1);
      GroupsTile(nrow, size, g - 1);
    }
  }

  lemma TilesPrefix(plan: seq<GroupPlan>, n: nat)
    requires Tiles(plan) && n <= |plan|
    ensures Tiles(plan[..n])
  {
    assert forall k :: 0 <= k < n ==> plan[..n][..k] == plan[..k];
  }

  /** Each planned group is the slice of the frame at its own offset. */
  lemma PlannedSlice<T>(x: seq<Rows<T>>, nrow: nat, size: nat, file: File<T>, p: GroupPlan, c: nat)
    requires size >= 1 && (forall d :: 0 <= d < |x| ==> |x[d]| == nrow) && HoldsFrame(file, x, nrow, size) && c < |x|
    requires p.index < |file| && p.rows == FooterRows(nrow, size)[p.index]
    requires p.offset == SelectedCount(FooterRows(nrow, size), AllOf(|file|), p.index)
    ensures p.offset + p.rows <= nrow && |file[p.index]| == |x| && |file[p.index][c]| == p.rows
    ensures file[p.index][c][..p.rows] == x[c][p.offset..p.offset + p.rows]
  {
    FooterCount(nrow, size, p.index);
    GroupsTile(nrow, size, p.index);
  }

  /** Parts that are slices of `y` at the planned offsets, put together, are `y`. */
  lemma {:induction false} JoinedSlices<T>(parts: seq<Rows<T>>, plan: seq<GroupPlan>, y: Rows<T>, n: nat)
    requires n <= |parts| == |plan| && Tiles(plan)
    requires forall k :: 0 <= k < |plan| ==>
               plan[k].offset + plan[k].rows <= |y| && parts[k] == y[plan[k].offset..plan[k].offset + plan[k].rows]
    ensures StartOf(plan, n) <= |y| && Joined(parts[..n]) == y[..StartOf(plan, n)]
    decreases n
  {
    if n == 0 {
      FirstStart(plan);
    } else {
      var p := plan[n - 1];
      JoinedSlices(parts, plan, y, n - 1);
      NextStart(plan, n - 1);
      JoinedSlice(parts, n, y, p.offset, p.offset + p.rows);
    }
  }

  lemma JoinedSlice<T>(parts: seq<Rows<T>>, n: nat, y: Rows<T>, a: nat, b: nat)
    requires 0 < n <= |parts| && a <= b <= |y| && Joined(parts[..n - 1]) == y[..a] && parts[n - 1] == y[a..b]
    ensures Joined(parts[..n]) == y[..b]
  {
    SliceOfSlice(parts, n, n - 1);
    PrefixThenSlice(y, a, b);
  }

  /** The rule that keeps a row as it is. */
  function KeepRule<T>(): (rule: Rule<T, Option<T>>)
  {
    Rule(v => (Some(v), false), None)
  }

  /** Under it, the cells of a column are its rows: collecting restores the frame itself. */
  lemma KeepRestores<T>(rows: Rows<T>)
    ensures Cells(KeepRule(), rows) == rows && !Loses(KeepRule(), rows)
  {
  }
}
