/** A parallel collect: its tasks, its lanes, and what any of its runs returns. */
module Parallel {
  import opened Bytes
  import opened Options
  import opened Columns
  import opened StringCache
  import opened Frame
  import opened Collect
  import opened Dictionary
  import opened Table
  import opened Canvas
  import opened Schedule

  // ---- tasks: one per row group and numeric column ----

  /** A column of a selected row group. */
  datatype Place = Place(group: nat, column: nat)

  predicate Precedes(a: Place, b: Place)
  {
    a.group < b.group || (a.group == b.group && a.column < b.column)
  }

  /** All places before `end` whose column is on the main thread or not, as `main` says, in order. */
  ghost predicate Dealt(places: seq<Place>, onMain: seq<bool>, main: bool, end: Place)
  {
    && (forall i :: 0 <= i < |places| ==>
          Precedes(places[i], end) && places[i].column < |onMain| && onMain[places[i].column] == main)
    && (forall i, j :: 0 <= i < j < |places| ==> Precedes(places[i], places[j]))
    && (forall p: Place :: Precedes(p, end) && p.column < |onMain| && onMain[p.column] == main ==> p in places)
  }

  /** One column more. */
  method DealColumn(places: seq<Place>, onMain: seq<bool>, main: bool, s: nat, c: nat) returns (r: seq<Place>)
    requires Dealt(places, onMain, main, Place(s, c)) && c < |onMain|
    ensures Dealt(r, onMain, main, Place(s, c + 1))
  {
    r := if onMain[c] == main then places + [Place(s, c)] else places;
    NextPlace(s, c);
    assert forall p: Place :: p in places ==> p in r;
  }

  lemma NextPlace(s: nat, c: nat)
    ensures forall p: Place :: Precedes(p, Place(s, c + 1)) <==> Precedes(p, Place(s, c)) || p == Place(s, c)
  {
  }

  lemma DealtRow(places: seq<Place>, onMain: seq<bool>, main: bool, group: nat)
    requires Dealt(places, onMain, main, Place(group, |onMain|))
    ensures Dealt(places, onMain, main, Place(group + 1, 0))
  {
    forall p: Place | Precedes(p, Place(group + 1, 0)) && p.column < |onMain|
      ensures Precedes(p, Place(group, |onMain|))
    {
    }
  }

  /** The columns of one group that are read on the main thread, or those that are not. */
  method DealGroup(s: nat, onMain: seq<bool>, main: bool, places: seq<Place>) returns (r: seq<Place>)
    requires Dealt(places, onMain, main, Place(s, 0))
    ensures Dealt(r, onMain, main, Place(s + 1, 0))
  {
    r := places;
    for c := 0 to |onMain|
      invariant Dealt(r, onMain, main, Place(s, c))
    {
      r := DealColumn(r, onMain, main, s, c);
    }
    DealtRow(r, onMain, main, s);
  }

  /** The task loop of `qio_collect_body` and its loop over main-thread columns: every place once, in order. */
  method Deal(groups: nat, onMain: seq<bool>, main: bool) returns (places: seq<Place>)
    ensures Dealt(places, onMain, main, Place(groups, 0))
  {
    places := [];
    for s := 0 to groups
      invariant Dealt(places, onMain, main, Place(s, 0))
    {
      places := DealGroup(s, onMain, main, places);
    }
  }

  // ---- the job ----

  /**
   * A piece stands for a stored chunk: it is as long, it fails exactly when the chunk cannot be
   * collected, and otherwise it writes what collecting the chunk gives. Where a failing one stops, and
   * what an abandoned attempt leaves behind first, is open.
   */
  ghost predicate Stands<T, R>(piece: Piece<Slot<R>>, kind: Kind<T, R>, st: Stored<T>, p: GroupPlan, c: nat)
    requires Suits(kind, st)
  {
    && piece.Valid() && piece.column == c && piece.offset == p.offset && |piece.cells| == p.rows
    && (piece.fails.None? <==> Succeeds(kind, st, p.rows))
    && (piece.fails.None? ==>
          && piece.cells == Got(kind, st, p.rows)
          && (piece.LosesIn(0, |piece.lossy|) <==> LosesSome(kind, st, p.rows)))
  }

  ghost predicate Inside<T, R>(file: Table<T>, kinds: seq<Kind<T, R>>, plan: seq<GroupPlan>, places: seq<Place>)
  {
    && ValidTable(file, kinds) && PlanFits(file, plan)
    && forall i :: 0 <= i < |places| ==> places[i].group < |plan| && places[i].column < |kinds|
  }

  ghost predicate StandsAt<T, R>(piece: Piece<Slot<R>>, file: Table<T>, kinds: seq<Kind<T, R>>, plan: seq<GroupPlan>,
                                 at: Place)
    requires ValidTable(file, kinds) && PlanFits(file, plan) && at.group < |plan| && at.column < |kinds|
  {
    var p := plan[at.group];
    Stands(piece, kinds[at.column], file[p.index][at.column], p, at.column)
  }

  /** Pieces for the places, one each. */
  ghost predicate StandFor<T, R>(pieces: seq<Piece<Slot<R>>>, file: Table<T>, kinds: seq<Kind<T, R>>,
                                 plan: seq<GroupPlan>, places: seq<Place>)
    requires Inside(file, kinds, plan, places)
  {
    |pieces| == |places| && forall i :: 0 <= i < |pieces| ==> StandsAt(pieces[i], file, kinds, plan, places[i])
  }

  function OnMain<T, R>(kinds: seq<Kind<T, R>>): (s: seq<bool>)
    ensures |s| == |kinds|
  {
    seq(|kinds|, c requires 0 <= c < |kinds| => kinds[c].NeedsMainThread())
  }

  lemma TilesOrdered(plan: seq<GroupPlan>, j: nat, k: nat)
    requires Tiles(plan) && j < k < |plan|
    ensures plan[j].offset + plan[j].rows <= plan[k].offset
  {
    TilesPrefix(plan, k);
    var before := plan[..k];
    PlanEndMonotone(before, j + 1);
    assert before[..j + 1][j] == plan[j];
  }

  /** The places of both lists, none twice. */
  ghost predicate Whole(all: seq<Place>, groups: nat, columns: nat)
  {
    && (forall i :: 0 <= i < |all| ==> all[i].group < groups && all[i].column < columns)
    && (forall i, j :: 0 <= i < j < |all| ==> all[i] != all[j])
    && (forall p: Place :: p.group < groups && p.column < columns ==> p in all)
  }

  lemma DealtWhole(tasks: seq<Place>, items: seq<Place>, onMain: seq<bool>, groups: nat)
    requires Dealt(tasks, onMain, false, Place(groups, 0)) && Dealt(items, onMain, true, Place(groups, 0))
    ensures Whole(tasks + items, groups, |onMain|)
  {
    var all := tasks + items;
    forall i, j | 0 <= i < j < |all| ensures all[i] != all[j] {
      if i < |tasks| <= j {
        assert !onMain[tasks[i].column] && onMain[items[j - |tasks|].column];
      } else if j < |tasks| {
        assert Precedes(tasks[i], tasks[j]);
      } else {
        assert Precedes(items[i - |tasks|], items[j - |tasks|]);
      }
    }
  }

  /** The job of a collect: tasks for the columns of workers, items for those of the main thread. */
  ghost predicate IsJob<T, R>(job: Job<Slot<R>>, file: Table<T>, kinds: seq<Kind<T, R>>, plan: seq<GroupPlan>,
                              tasks: seq<Place>, items: seq<Place>)
  {
    && ValidTable(file, kinds) && PlanFits(file, plan) && Tiles(plan)
    && Dealt(tasks, OnMain(kinds), false, Place(|plan|, 0)) && Dealt(items, OnMain(kinds), true, Place(|plan|, 0))
    && Inside(file, kinds, plan, tasks) && Inside(file, kinds, plan, items)
    && StandFor(job.tasks, file, kinds, plan, tasks) && StandFor(job.items, file, kinds, plan, items)
  }

  /** Workers get no text and no column that needs the main thread; the main thread gets just those. */
  lemma TasksAreWorkers<T, R>(job: Job<Slot<R>>, file: Table<T>, kinds: seq<Kind<T, R>>, plan: seq<GroupPlan>,
                              tasks: seq<Place>, items: seq<Place>)
    requires IsJob(job, file, kinds, plan, tasks, items)
    ensures |job.tasks| == |tasks| && |job.items| == |items|
    ensures forall i :: 0 <= i < |tasks| ==> kinds[tasks[i].column].Placed? && !kinds[tasks[i].column].onMain
    ensures forall i :: 0 <= i < |items| ==> kinds[items[i].column].Text? || kinds[items[i].column].onMain
  {
  }

  /** The result vectors before the collect. */
  predicate Allocated<T, R>(init: Grid<Slot<R>>, kinds: seq<Kind<T, R>>, plan: seq<GroupPlan>)
  {
    |init| == |kinds| && forall c :: 0 <= c < |init| ==> |init[c]| == PlanEnd(plan)
  }

  lemma PlacesInside<T, R>(file: Table<T>, kinds: seq<Kind<T, R>>, plan: seq<GroupPlan>, places: seq<Place>, main: bool)
    requires ValidTable(file, kinds) && PlanFits(file, plan) && Dealt(places, OnMain(kinds), main, Place(|plan|, 0))
    ensures Inside(file, kinds, plan, places)
  {
  }

  /** No two pieces share a cell. */
  lemma PiecesApart<T, R>(pieces: seq<Piece<Slot<R>>>, file: Table<T>, kinds: seq<Kind<T, R>>, plan: seq<GroupPlan>,
                          all: seq<Place>)
    requires Inside(file, kinds, plan, all) && StandFor(pieces, file, kinds, plan, all) && Tiles(plan)
    requires forall i, j :: 0 <= i < j < |all| ==> all[i] != all[j]
    ensures Apart(pieces)
  {
    forall i, j | 0 <= i < |all| && 0 <= j < |all| && i != j ensures Clear(pieces[i], pieces[j]) {
      assert StandsAt(pieces[i], file, kinds, plan, all[i]) && StandsAt(pieces[j], file, kinds, plan, all[j]);
      if all[i].group < all[j].group {
        TilesOrdered(plan, all[i].group, all[j].group);
      } else if all[j].group < all[i].group {
        TilesOrdered(plan, all[j].group, all[i].group);
      } else {
        assert i < j ==> all[i] != all[j];
        assert j < i ==> all[j] != all[i];
      }
    }
  }

  lemma PiecesFit<T, R>(pieces: seq<Piece<Slot<R>>>, file: Table<T>, kinds: seq<Kind<T, R>>, plan: seq<GroupPlan>,
                        all: seq<Place>, init: Grid<Slot<R>>)
    requires Inside(file, kinds, plan, all) && StandFor(pieces, file, kinds, plan, all) && Tiles(plan)
             && Allocated(init, kinds, plan)
    ensures Fits(pieces, init)
  {
    forall i | 0 <= i < |pieces|
      ensures pieces[i].Valid() && pieces[i].column < |init|
              && pieces[i].offset + |pieces[i].cells| <= |init[pieces[i].column]|
    {
      assert StandsAt(pieces[i], file, kinds, plan, all[i]);
      PlanStep(plan, all[i].group);
    }
  }

  /** Tasks and items together: every place once. */
  lemma JobPlaces<T, R>(job: Job<Slot<R>>, file: Table<T>, kinds: seq<Kind<T, R>>, plan: seq<GroupPlan>,
                        tasks: seq<Place>, items: seq<Place>)
    requires IsJob(job, file, kinds, plan, tasks, items)
    ensures Whole(tasks + items, |plan|, |kinds|) && Inside(file, kinds, plan, tasks + items)
    ensures StandFor(job.Pieces(), file, kinds, plan, tasks + items)
  {
    DealtWhole(tasks, items, OnMain(kinds), |plan|);
    StandConcat(job.tasks, job.items, file, kinds, plan, tasks, items);
  }

  lemma StandConcat<T, R>(a: seq<Piece<Slot<R>>>, b: seq<Piece<Slot<R>>>, file: Table<T>, kinds: seq<Kind<T, R>>,
                          plan: seq<GroupPlan>, tasks: seq<Place>, items: seq<Place>)
    requires Inside(file, kinds, plan, tasks) && Inside(file, kinds, plan, items)
    requires StandFor(a, file, kinds, plan, tasks) && StandFor(b, file, kinds, plan, items)
    ensures Inside(file, kinds, plan, tasks + items) && StandFor(a + b, file, kinds, plan, tasks + items)
  {
    var all, pieces := tasks + items, a + b;
    forall i | 0 <= i < |pieces| ensures StandsAt(pieces[i], file, kinds, plan, all[i]) {
      if i < |tasks| {
        assert StandsAt(a[i], file, kinds, plan, tasks[i]);
      } else {
        assert StandsAt(b[i - |tasks|], file, kinds, plan, items[i - |tasks|]);
      }
    }
  }

  /** A collect is ready to be scheduled: its pieces are disjoint and lie within the result. */
  lemma JobReady<T, R>(job: Job<Slot<R>>, file: Table<T>, kinds: seq<Kind<T, R>>, plan: seq<GroupPlan>,
                       tasks: seq<Place>, items: seq<Place>, init: Grid<Slot<R>>)
    requires IsJob(job, file, kinds, plan, tasks, items) && Allocated(init, kinds, plan)
    ensures Fits(job.Pieces(), init) && Apart(job.Pieces())
  {
    JobPlaces(job, file, kinds, plan, tasks, items);
    PiecesApart(job.Pieces(), file, kinds, plan, tasks + items);
    PiecesFit(job.Pieces(), file, kinds, plan, tasks + items, init);
  }

  // ---- what a run returns ----

  lemma PieceOfPlace(all: seq<Place>, groups: nat, columns: nat, k: nat, c: nat) returns (i: nat)
    requires Whole(all, groups, columns) && k < groups && c < columns
    ensures i < |all| && all[i] == Place(k, c)
  {
    assert Place(k, c) in all;
    i :| 0 <= i < |all| && all[i] == Place(k, c);
  }

  lemma PieceSucceeds<T, R>(pieces: seq<Piece<Slot<R>>>, file: Table<T>, kinds: seq<Kind<T, R>>, plan: seq<GroupPlan>,
                            all: seq<Place>, i: nat)
    requires Inside(file, kinds, plan, all) && StandFor(pieces, file, kinds, plan, all) && i < |all|
    ensures pieces[i].fails.None? <==> SucceedsAt(file, kinds, plan, all[i].group, all[i].column)
  {
    assert StandsAt(pieces[i], file, kinds, plan, all[i]);
  }

  /** No piece fails exactly when every selected chunk can be collected. */
  lemma NoneFailsIfCollectable<T, R>(pieces: seq<Piece<Slot<R>>>, file: Table<T>, kinds: seq<Kind<T, R>>,
                                     plan: seq<GroupPlan>, all: seq<Place>)
    requires Inside(file, kinds, plan, all) && StandFor(pieces, file, kinds, plan, all) && Whole(all, |plan|, |kinds|)
    ensures NoneFails(pieces, |pieces|) <==> AllSucceed(file, kinds, plan)
  {
    if NoneFails(pieces, |pieces|) {
      forall k, c | 0 <= k < |plan| && 0 <= c < |kinds| ensures SucceedsAt(file, kinds, plan, k, c) {
        var i := PieceOfPlace(all, |plan|, |kinds|, k, c);
        PieceSucceeds(pieces, file, kinds, plan, all, i);
      }
    }
    if AllSucceed(file, kinds, plan) {
      forall i | 0 <= i < |pieces| ensures pieces[i].fails.None? {
        PieceSucceeds(pieces, file, kinds, plan, all, i);
      }
    }
  }

  lemma ReturnsIfNoneFails<R>(job: Job<R>, mode: Mode)
    ensures Verdict(job, mode) == Returned <==> NoneFails(job.Pieces(), |job.Pieces()|)
  {
    var n := |job.tasks|;
    var t, i := FirstFailing(job.tasks, 0), FirstFailing(job.items, 0);
    if t.Some? {
      assert job.Pieces()[t.value].fails.Some?;
    } else if i.Some? {
      assert job.Pieces()[n + i.value].fails.Some?;
    } else {
      forall p | 0 <= p < |job.Pieces()| ensures job.Pieces()[p].fails.None? {
        assert job.Pieces()[p] == if p < n then job.tasks[p] else job.items[p - n];
      }
    }
  }

  /** The job of a collect can end well exactly when every selected chunk can be collected. */
  lemma ReturnsIfCollectable<T, R>(job: Job<Slot<R>>, file: Table<T>, kinds: seq<Kind<T, R>>, plan: seq<GroupPlan>,
                                   tasks: seq<Place>, items: seq<Place>, mode: Mode)
    requires IsJob(job, file, kinds, plan, tasks, items)
    ensures Verdict(job, mode) == Returned <==> AllSucceed(file, kinds, plan)
  {
    JobPlaces(job, file, kinds, plan, tasks, items);
    NoneFailsIfCollectable(job.Pieces(), file, kinds, plan, tasks + items);
    ReturnsIfNoneFails(job, mode);
  }

  /** A complete piece stands in its column. */
  lemma PieceStands<R>(pieces: seq<Piece<R>>, init: Grid<R>, grid: Grid<R>, extents: seq<Extent>, p: nat)
    requires Fits(pieces, init) && Painted(pieces, init, grid, extents) && Complete(pieces, extents) && p < |pieces|
    ensures var q := pieces[p]; grid[q.column][q.offset..q.offset + |q.cells|] == q.cells
  {
    var q := pieces[p];
    var stretch := grid[q.column][q.offset..q.offset + |q.cells|];
    forall i | 0 <= i < |q.cells| ensures stretch[i] == q.cells[i] {
      assert grid[pieces[p].column][pieces[p].offset + i] == pieces[p].cells[i];
    }
  }

  /** The first `n` parts, one after the other. */
  function Flat<S>(parts: seq<seq<S>>, n: nat): (s: seq<S>)
    requires n <= |parts|
  {
    if n == 0 then [] else Flat(parts, n - 1) + parts[n - 1]
  }

  /** A column filled part by part, at the planned offsets, holds the parts one after the other. */
  lemma {:induction false} ColumnFilled<S>(parts: seq<seq<S>>, plan: seq<GroupPlan>, column: seq<S>, n: nat)
    requires n <= |parts| == |plan| && Tiles(plan)
    requires forall k :: 0 <= k < |plan| ==>
               plan[k].offset + plan[k].rows <= |column|
                 && column[plan[k].offset..plan[k].offset + plan[k].rows] == parts[k]
    ensures StartOf(plan, n) <= |column| && column[..StartOf(plan, n)] == Flat(parts, n)
    decreases n
  {
    if n == 0 {
      FirstStart(plan);
    } else {
      var p := plan[n - 1];
      ColumnFilled(parts, plan, column, n - 1);
      NextStart(plan, n - 1);
      FlatNext(parts, n, column, p.offset, p.offset + p.rows);
    }
  }

  lemma FlatNext<S>(parts: seq<seq<S>>, n: nat, column: seq<S>, a: nat, b: nat)
    requires 0 < n <= |parts| && a <= b <= |column| && Flat(parts, n - 1) == column[..a] && parts[n - 1] == column[a..b]
    ensures Flat(parts, n) == column[..b]
  {
    PrefixThenSlice(column, a, b);
  }

  lemma WholeColumnFilled<S>(parts: seq<seq<S>>, plan: seq<GroupPlan>, column: seq<S>)
    requires |parts| == |plan| && Tiles(plan) && |column| == PlanEnd(plan)
    requires forall k :: 0 <= k < |plan| ==>
               plan[k].offset + plan[k].rows <= |column|
                 && column[plan[k].offset..plan[k].offset + plan[k].rows] == parts[k]
    ensures column == Flat(parts, |plan|)
  {
    ColumnFilled(parts, plan, column, |plan|);
    assert column[..PlanEnd(plan)] == column;
  }

  /** What the planned groups give, one after the other, is the column to be collected. */
  lemma {:induction false} FlatIsGot<T, R>(parts: seq<seq<Slot<R>>>, file: Table<T>, kinds: seq<Kind<T, R>>,
                                           plan: seq<GroupPlan>, c: nat, n: nat)
    requires ValidTable(file, kinds) && PlanFits(file, plan) && c < |kinds| && n <= |plan| == |parts|
    requires forall k :: 0 <= k < |plan| ==> parts[k] == Got(kinds[c], file[plan[k].index][c], plan[k].rows)
    ensures Flat(parts, n) == GotColumn(file, kinds, plan, c, n)
    decreases n
  {
    if n == 0 {
    } else {
      FlatIsGot(parts, file, kinds, plan, c, n - 1);
      GotUnfolds(file, kinds, plan, c, n);
      assert Flat(parts, n) == Flat(parts, n - 1) + parts[n - 1];
    }
  }

  lemma GotUnfolds<T, R>(file: Table<T>, kinds: seq<Kind<T, R>>, plan: seq<GroupPlan>, c: nat, n: nat)
    requires ValidTable(file, kinds) && PlanFits(file, plan) && c < |kinds| && 0 < n <= |plan|
    ensures GotColumn(file, kinds, plan, c, n)
            == GotColumn(file, kinds, plan, c, n - 1) + Got(kinds[c], file[plan[n - 1].index][c], plan[n - 1].rows)
  {
  }

  /** Group `k` of column `c` stands in the finished result. */
  lemma GroupStands<T, R>(pieces: seq<Piece<Slot<R>>>, file: Table<T>, kinds: seq<Kind<T, R>>, plan: seq<GroupPlan>,
                          all: seq<Place>, init: Grid<Slot<R>>, grid: Grid<Slot<R>>, extents: seq<Extent>, k: nat,
                          c: nat)
    requires Inside(file, kinds, plan, all) && StandFor(pieces, file, kinds, plan, all)
    requires Whole(all, |plan|, |kinds|) && k < |plan| && c < |kinds| && SucceedsAt(file, kinds, plan, k, c)
    requires Fits(pieces, init) && Painted(pieces, init, grid, extents) && Complete(pieces, extents)
    ensures var p := plan[k];
            && c < |grid| && p.offset + p.rows <= |grid[c]|
            && grid[c][p.offset..p.offset + p.rows] == Got(kinds[c], file[p.index][c], p.rows)
  {
    var i := PieceOfPlace(all, |plan|, |kinds|, k, c);
    assert StandsAt(pieces[i], file, kinds, plan, all[i]);
    PieceStands(pieces, init, grid, extents, i);
  }

  /** What the planned groups give in column `c`. */
  ghost function GotParts<T, R>(file: Table<T>, kinds: seq<Kind<T, R>>, plan: seq<GroupPlan>,
                                c: nat): (parts: seq<seq<Slot<R>>>)
    requires ValidTable(file, kinds) && PlanFits(file, plan) && c < |kinds|
    ensures |parts| == |plan|
    ensures forall k :: 0 <= k < |plan| ==> parts[k] == Got(kinds[c], file[plan[k].index][c], plan[k].rows)
  {
    seq(|plan|, k requires 0 <= k < |plan| => Got(kinds[c], file[plan[k].index][c], plan[k].rows))
  }

  /** In the finished result of a job, every vector is its column of the selection. */
  lemma GridIsSelection<T, R>(pieces: seq<Piece<Slot<R>>>, file: Table<T>, kinds: seq<Kind<T, R>>, plan: seq<GroupPlan>,
                              all: seq<Place>, init: Grid<Slot<R>>, grid: Grid<Slot<R>>, extents: seq<Extent>, c: nat)
    requires Inside(file, kinds, plan, all) && StandFor(pieces, file, kinds, plan, all) && Tiles(plan)
    requires Whole(all, |plan|, |kinds|) && AllSucceed(file, kinds, plan) && Allocated(init, kinds, plan) && c < |kinds|
    requires Fits(pieces, init) && Painted(pieces, init, grid, extents) && Complete(pieces, extents)
    ensures grid[c] == GotColumn(file, kinds, plan, c, |plan|)
  {
    var parts := GotParts(file, kinds, plan, c);
    forall k | 0 <= k < |plan|
      ensures plan[k].offset + plan[k].rows <= |grid[c]|
              && grid[c][plan[k].offset..plan[k].offset + plan[k].rows] == parts[k]
    {
      assert SucceedsAt(file, kinds, plan, k, c);
      GroupStands(pieces, file, kinds, plan, all, init, grid, extents, k, c);
    }
    WholeColumnFilled(parts, plan, grid[c]);
    FlatIsGot(parts, file, kinds, plan, c, |plan|);
  }

  /** A column has a piece that loses a value exactly when the selection loses one there. */
  lemma PieceLosesColumn<T, R>(pieces: seq<Piece<Slot<R>>>, file: Table<T>, kinds: seq<Kind<T, R>>,
                               plan: seq<GroupPlan>, all: seq<Place>, c: nat)
    requires Inside(file, kinds, plan, all) && StandFor(pieces, file, kinds, plan, all)
    requires Whole(all, |plan|, |kinds|) && AllSucceed(file, kinds, plan) && c < |kinds|
    ensures PieceLoses(pieces, c) <==> LosesColumn(file, kinds, plan, c, |plan|)
  {
    forall i | 0 <= i < |pieces| && all[i].column == c
      ensures pieces[i].column == c
      ensures pieces[i].LosesIn(0, |pieces[i].lossy|) <==>
              LosesSome(kinds[c], file[plan[all[i].group].index][c], plan[all[i].group].rows)
    {
      assert StandsAt(pieces[i], file, kinds, plan, all[i]) && SucceedsAt(file, kinds, plan, all[i].group, c);
    }
    if i :| 0 <= i < |pieces| && pieces[i].column == c && pieces[i].LosesIn(0, |pieces[i].lossy|) {
      assert StandsAt(pieces[i], file, kinds, plan, all[i]);
      assert LosesSome(kinds[c], file[plan[all[i].group].index][c], plan[all[i].group].rows);
    }
    if k :| 0 <= k < |plan| && LosesSome(kinds[c], file[plan[k].index][c], plan[k].rows) {
      var i := PieceOfPlace(all, |plan|, |kinds|, k, c);
      assert pieces[i].column == c && pieces[i].LosesIn(0, |pieces[i].lossy|);
    }
  }

  /**
   * Every run of a collect that comes to its end, inline, pooled or in lanes. It returns exactly when
   * every selected chunk can be collected: numbers when their pages decode, text when reading it by its
   * dictionary or by its rows succeeds. Then every vector is the one of the sequential collect, and so
   * is every flag.
   */
  lemma ParallelIsSequential<T, R>(job: Job<Slot<R>>, file: Table<T>, kinds: seq<Kind<T, R>>, plan: seq<GroupPlan>,
                                   tasks: seq<Place>, items: seq<Place>, init: Grid<Slot<R>>, mode: Mode,
                                   run: seq<Action>)
    requires IsJob(job, file, kinds, plan, tasks, items) && Allocated(init, kinds, plan) && mode.Valid(|job.tasks|)
    requires Fits(job.Pieces(), init) && Reached(job, init, mode, run).Some?
             && Ended(Reached(job, init, mode, run).value)
    ensures var end := Reached(job, init, mode, run).value;
            && (end.main == Returned <==> AllSucceed(file, kinds, plan))
            && |end.grid| == |end.flags| == |kinds|
            && (end.main == Returned ==> forall c :: 0 <= c < |kinds| ==>
                  && end.grid[c] == GotColumn(file, kinds, plan, c, |plan|)
                  && (end.flags[c] <==> LosesColumn(file, kinds, plan, c, |plan|)))
  {
    JobReady(job, file, kinds, plan, tasks, items, init);
    JobPlaces(job, file, kinds, plan, tasks, items);
    EndIsVerdict(job, init, mode, run);
    ReturnsIfCollectable(job, file, kinds, plan, tasks, items, mode);
    var end := Reached(job, init, mode, run).value;
    if end.main == Returned {
      forall c | 0 <= c < |kinds|
        ensures end.grid[c] == GotColumn(file, kinds, plan, c, |plan|)
        ensures end.flags[c] <==> LosesColumn(file, kinds, plan, c, |plan|)
      {
        GridIsSelection(job.Pieces(), file, kinds, plan, tasks + items, init, end.grid, end.extents, c);
        PieceLosesColumn(job.Pieces(), file, kinds, plan, tasks + items, c);
      }
    }
  }

  // ---- the pieces that the code writes ----

  /** Values: a chunk that cannot be read stops before the batch that fails. */
  ghost function NumbersPiece<T, R>(rule: Rule<T, R>, chunk: Chunk<T>, p: GroupPlan, c: nat,
                                    batchSize: nat): (piece: Piece<Slot<R>>)
    requires batchSize >= 1
  {
    var g := GoodRows(chunk, p.rows);
    Piece(c, p.offset, Numbered(Cells(rule, chunk.rows[..g])) + seq(p.rows - g, _ => Number(rule.na)),
          seq(p.rows, i requires 0 <= i => i < g && LosesRow(rule, chunk.rows[i])), [],
          if g == p.rows then None else Some(WholeBatches(g, batchSize)))
  }

  /** Text: first what an abandoned attempt leaves, then the rows; nothing is lost. */
  ghost function WordsPiece<R>(t: TextChunk, p: GroupPlan, c: nat, batchSize: nat): (piece: Piece<Slot<R>>)
    requires t.Valid() && batchSize >= 1
  {
    if Collects(t, p.rows) then
      CollectsHasRows(t, p.rows);
      Piece(c, p.offset, Worded(TextCells(Materialized(t).rows[..p.rows])), seq(p.rows, _ => false),
            Worded(Draft(t, p.rows, batchSize)), None)
    else
      Piece(c, p.offset, seq(p.rows, _ => Word(NaString)), seq(p.rows, _ => false),
            Worded(Draft(t, p.rows, batchSize)), Some(0))
  }

  ghost function PieceFor<T, R>(kind: Kind<T, R>, st: Stored<T>, p: GroupPlan, c: nat,
                                batchSize: nat): (piece: Piece<Slot<R>>)
    requires Suits(kind, st) && batchSize >= 1
  {
    if kind.Placed? then NumbersPiece(kind.rule, st.chunk, p, c, batchSize) else WordsPiece(st.text, p, c, batchSize)
  }

  /** They are pieces of a job, so every collect has one. */
  lemma PieceForStands<T, R>(kind: Kind<T, R>, st: Stored<T>, p: GroupPlan, c: nat, batchSize: nat)
    requires Suits(kind, st) && batchSize >= 1
    ensures Stands(PieceFor(kind, st, p, c, batchSize), kind, st, p, c)
  {
    var piece := PieceFor(kind, st, p, c, batchSize);
    if kind.Placed? && Succeeds(kind, st, p.rows) {
      var rows := Taken(st.chunk.rows, p.rows);
      assert st.chunk.rows[..p.rows] == rows;
      assert forall i :: 0 <= i < p.rows ==> piece.lossy[i] == LosesRow(kind.rule, rows[i]);
      if Loses(kind.rule, rows) {
        var i :| 0 <= i < |rows| && LosesRow(kind.rule, rows[i]);
        assert piece.lossy[i];
      }
    } else if kind.Text? && Succeeds(kind, st, p.rows) {
      CollectsHasRows(st.text, p.rows);
    }
  }

  /** The pieces of the places, in order. */
  ghost function PiecesFor<T, R>(file: Table<T>, kinds: seq<Kind<T, R>>, plan: seq<GroupPlan>, batchSize: nat,
                                 places: seq<Place>)
    : (s: seq<Piece<Slot<R>>>)
    requires Inside(file, kinds, plan, places) && batchSize >= 1
    ensures |s| == |places|
  {
    seq(|places|, i requires 0 <= i < |places| =>
          var p := plan[places[i].group];
          PieceFor(kinds[places[i].column], file[p.index][places[i].column], p, places[i].column, batchSize))
  }

  lemma JobExists<T, R>(file: Table<T>, kinds: seq<Kind<T, R>>, plan: seq<GroupPlan>, batchSize: nat, tasks: seq<Place>,
                        items: seq<Place>)
    requires ValidTable(file, kinds) && PlanFits(file, plan) && Tiles(plan) && batchSize >= 1
    requires Dealt(tasks, OnMain(kinds), false, Place(|plan|, 0)) && Dealt(items, OnMain(kinds), true, Place(|plan|, 0))
    ensures Inside(file, kinds, plan, tasks) && Inside(file, kinds, plan, items)
    ensures var job := Job(PiecesFor(file, kinds, plan, batchSize, tasks),
            PiecesFor(file, kinds, plan, batchSize, items));
            IsJob(job, file, kinds, plan, tasks, items)
  {
    PlacesInside(file, kinds, plan, tasks, false);
    PlacesInside(file, kinds, plan, items, true);
    forall places: seq<Place> | Inside(file, kinds, plan, places)
      ensures StandFor(PiecesFor(file, kinds, plan, batchSize, places), file, kinds, plan, places)
    {
      forall i | 0 <= i < |places|
        ensures StandsAt(PiecesFor(file, kinds, plan, batchSize, places)[i], file, kinds, plan, places[i])
      {
        var p := plan[places[i].group];
        PieceForStands(kinds[places[i].column], file[p.index][places[i].column], p, places[i].column, batchSize);
      }
    }
  }

  // ---- errors and warning flags after the join ----

  /** The last loop of `qio_collect_body`: the first failed task, or every column's flag with those of its tasks. */
  method MergeFlags<R>(phases: seq<Phase>, tasks: seq<Piece<R>>, lost: seq<bool>, flags: seq<bool>)
    returns (failed: Option<nat>, merged: seq<bool>)
    requires |phases| == |tasks| == |lost| && forall t :: 0 <= t < |tasks| ==> tasks[t].column < |flags|
    ensures failed == FirstFailed(phases, 0)
    ensures failed.None? ==> merged == Merged(tasks, lost, flags)
  {
    merged := flags;
    for t := 0 to |tasks|
      invariant FirstFailed(phases, 0) == FirstFailed(phases, t)
      invariant |merged| == |flags| && forall c :: 0 <= c < |flags| ==>
                  (merged[c] <==> flags[c] || exists u :: 0 <= u < t && tasks[u].column == c && lost[u])
    {
      if phases[t] == Failed {
        return Some(t), merged;
      }
      if lost[t] {
        merged := merged[tasks[t].column := true];
      }
    }
    assert merged == Merged(tasks, lost, flags);
    failed := None;
  }

  // ---- 64-bit columns ----

  /** What an INT64 row must read as: missing exactly when null or not representable, else the number meant. */
  function Int64Meant(row: Option<int>, mode: Int64Mode, isUnsigned: bool): (v: Option<int>)
  {
    if row.Some? && Representable(Meant(row.value, isUnsigned), mode) then Some(Meant(row.value, isUnsigned)) else None
  }

  predicate InInt64(rows: Rows<int>)
  {
    forall i :: 0 <= i < |rows| && rows[i].Some? ==> INT64_MIN <= rows[i].value < -INT64_MIN
  }

  lemma Int64Cell(row: Option<int>, mode: Int64Mode, isUnsigned: bool)
    requires row.Some? ==> INT64_MIN <= row.value < -INT64_MIN
    ensures ReadInt64(CellOf(Int64Rule(mode, isUnsigned), row), mode) == Int64Meant(row, mode, isUnsigned)
    ensures LosesRow(Int64Rule(mode, isUnsigned), row) <==> row.Some? && Int64Meant(row, mode, isUnsigned).None?
  {
    if row.Some? {
      PlaceInt64Exact(row.value, mode, isUnsigned);
    }
  }

  /**
   * An INT64 column, across all groups, tasks and batches, in every run that returns: a row is missing
   * exactly when it is null or cannot be represented, every other row is exact, and the column is
   * flagged exactly when some present value could not be represented.
   */
  lemma Int64Collected(job: Job<Slot<Real>>, file: Table<int>, kinds: seq<Kind<int, Real>>, plan: seq<GroupPlan>,
                       tasks: seq<Place>, items: seq<Place>, init: Grid<Slot<Real>>, mode: Mode, run: seq<Action>,
                       c: nat, int64Mode: Int64Mode, isUnsigned: bool)
    requires IsJob(job, file, kinds, plan, tasks, items) && Allocated(init, kinds, plan) && mode.Valid(|job.tasks|)
    requires Fits(job.Pieces(), init) && Reached(job, init, mode, run).Some?
    requires Reached(job, init, mode, run).value.main == Returned
    requires c < |kinds| && kinds[c].Placed? && kinds[c].rule == Int64Rule(int64Mode, isUnsigned)
    requires InInt64(SelectedRows(file, kinds, plan, c))
    ensures var end, rows := Reached(job, init, mode, run).value, SelectedRows(file, kinds, plan, c);
            && |end.grid| == |end.flags| == |kinds| && |end.grid[c]| == |rows|
            && (forall i :: 0 <= i < |rows| ==>
                  && end.grid[c][i].Number?
                  && ReadInt64(end.grid[c][i].v, int64Mode) == Int64Meant(rows[i], int64Mode, isUnsigned))
            && (end.flags[c] <==>
              exists i :: 0 <= i < |rows| && rows[i].Some? && Int64Meant(rows[i], int64Mode, isUnsigned).None?)
  {
    ParallelIsSequential(job, file, kinds, plan, tasks, items, init, mode, run);
    PlacedColumn(file, kinds, plan, c);
    var rows := SelectedRows(file, kinds, plan, c);
    forall i | 0 <= i < |rows|
      ensures ReadInt64(CellOf(Int64Rule(int64Mode, isUnsigned), rows[i]), int64Mode)
              == Int64Meant(rows[i], int64Mode, isUnsigned)
      ensures LosesRow(Int64Rule(int64Mode, isUnsigned), rows[i]) <==>
                rows[i].Some? && Int64Meant(rows[i], int64Mode, isUnsigned).None?
    {
      Int64Cell(rows[i], int64Mode, isUnsigned);
    }
  }

  // ---- which error is reported ----

  /** A numeric column whose page does not decode, and a text column that holds a nul byte. */
  function BadFile(): (file: Table<int>)
  {
    [[Numbers(Chunk([Some(1)], false, Some(0))),
      Words(TextChunk([Values([Some(Some([0]))])], None, false, false),
        Layout(_ => _ => 0, (_, _) => ByteArray(1, 1)))]]
  }

  function BadKinds(): (kinds: seq<Kind<int, int>>)
  {
    [Placed(Int32Rule(), false), Text]
  }

  lemma BadFileFails()
    ensures ValidTable(BadFile(), BadKinds())
    ensures !Succeeds(BadKinds()[0], BadFile()[0][0], 1) && !Succeeds(BadKinds()[1], BadFile()[0][1], 1)
  {
    var t := BadFile()[0][1].text;
    assert t.pages[..0] == [];
    assert Materialized(t) == Chunk([Some(Some([0]))], false, None);
    assert Materialized(t).rows[..1][0] == Some(Some([0]));
    assert BytesAt(_ => 0, 1, 1) == [0];
  }

  /** The job of collecting it. */
  lemma BadJob() returns (job: Job<Slot<int>>)
    ensures ValidTable(BadFile(), BadKinds())
    ensures IsJob(job, BadFile(), BadKinds(), [GroupPlan(0, 1, 0)], [Place(0, 0)], [Place(0, 1)])
  {
    BadFileFails();
    var plan, tasks, items := [GroupPlan(0, 1, 0)], [Place(0, 0)], [Place(0, 1)];
    assert plan[..0] == [];
    JobExists(BadFile(), BadKinds(), plan, 1, tasks, items);
    job := Job(PiecesFor(BadFile(), BadKinds(), plan, 1, tasks), PiecesFor(BadFile(), BadKinds(), plan, 1, items));
  }

  lemma BadJobFails(job: Job<Slot<int>>)
    requires ValidTable(BadFile(), BadKinds())
    requires IsJob(job, BadFile(), BadKinds(), [GroupPlan(0, 1, 0)], [Place(0, 0)], [Place(0, 1)])
    ensures Verdict(job, Inline) == Main.Raised(TaskFault(0)) && Verdict(job, Pool(8)) == Main.Raised(ItemFault(0))
  {
    BadFileFails();
    var plan := [GroupPlan(0, 1, 0)];
    assert StandsAt(job.tasks[0], BadFile(), BadKinds(), plan, Place(0, 0));
    assert StandsAt(job.items[0], BadFile(), BadKinds(), plan, Place(0, 1));
  }

  /** Collected inline, the numeric column is reported; on a pool, the text column. */
  lemma ErrorsDiffer() returns (job: Job<Slot<int>>, init: Grid<Slot<int>>, run: seq<Action>, run': seq<Action>)
    ensures ValidTable(BadFile(), BadKinds())
    ensures IsJob(job, BadFile(), BadKinds(), [GroupPlan(0, 1, 0)], [Place(0, 0)], [Place(0, 1)])
            && Fits(job.Pieces(), init)
    ensures Reached(job, init, Inline, run).Some? && Reached(job, init, Pool(8), run').Some?
    ensures Reached(job, init, Inline, run).value.main == Main.Raised(TaskFault(0))
    ensures Reached(job, init, Pool(8), run').value.main == Main.Raised(ItemFault(0))
  {
    job := BadJob();
    init := [[Number(0)], [Word(NaString)]];
    JobReady(job, BadFile(), BadKinds(), [GroupPlan(0, 1, 0)], [Place(0, 0)], [Place(0, 1)], init);
    BadJobFails(job);
    run := RunsEnd(job, init, Inline, []);
    run' := RunsEnd(job, init, Pool(8), []);
  }
}
