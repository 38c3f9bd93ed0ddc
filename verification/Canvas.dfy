/** Writers that share one result: each fills its own rows, from the first on. */
module Canvas {
  import opened Options

  /**
   * Rows of one column, to be written in order, and which of them lose a value. A failing piece stops
   * after `fails` rows. Before it starts, an attempt that is given up may leave a draft in its rows.
   */
  datatype Piece<R> = Piece(column: nat, offset: nat, cells: seq<R>, lossy: seq<bool>, draft: seq<R>,
                            fails: Option<nat>)
  {
    predicate Valid()
    {
      |lossy| == |cells| && |draft| <= |cells| && (fails.Some? ==> fails.value <= |cells|)
    }

    /** How far this piece gets. */
    function Limit(): (n: nat)
    {
      if fails.Some? then fails.value else |cells|
    }

    /** Cell `(c, r)` is among the first `n` rows of this piece. */
    predicate Covers(n: nat, c: nat, r: nat)
    {
      column == c && offset <= r < offset + n
    }

    /** One of the rows `a` to `b` loses its value. */
    predicate LosesIn(a: nat, b: nat)
      requires b <= |lossy|
    {
      exists i :: a <= i < b && lossy[i]
    }
  }

  /** The result: one vector per column. */
  type Grid<R> = seq<seq<R>>

  predicate Fits<R>(pieces: seq<Piece<R>>, grid: Grid<R>)
  {
    forall p :: 0 <= p < |pieces| ==>
      && pieces[p].Valid() && pieces[p].column < |grid|
      && pieces[p].offset + |pieces[p].cells| <= |grid[pieces[p].column]|
  }

  predicate Clear<R>(a: Piece<R>, b: Piece<R>)
  {
    a.column != b.column || a.offset + |a.cells| <= b.offset || b.offset + |b.cells| <= a.offset
  }

  /** No two pieces share a cell. */
  ghost predicate Apart<R>(pieces: seq<Piece<R>>)
  {
    forall p, q :: 0 <= p < |pieces| && 0 <= q < |pieces| && p != q ==> Clear(pieces[p], pieces[q])
  }

  predicate SameShape<R>(g: Grid<R>, h: Grid<R>)
  {
    |g| == |h| && forall c :: 0 <= c < |g| ==> |g[c]| == |h[c]|
  }

  /** How far each piece has got: rows written, and rows of its draft before that. */
  datatype Extent = Extent(written: nat, drafted: nat)
  {
    function Touched(): (n: nat)
    {
      if written < drafted then drafted else written
    }
  }

  ghost predicate Within<R>(pieces: seq<Piece<R>>, extents: seq<Extent>)
  {
    |extents| == |pieces| && forall p :: 0 <= p < |pieces| ==> extents[p].Touched() <= |pieces[p].cells|
  }

  /** No piece has got to cell `(c, r)`. */
  ghost predicate Blank<R>(pieces: seq<Piece<R>>, extents: seq<Extent>, c: nat, r: nat)
    requires |extents| == |pieces|
  {
    forall p :: 0 <= p < |pieces| ==> !pieces[p].Covers(extents[p].Touched(), c, r)
  }

  /** Every piece stands as far as it is written, and cells that no piece has touched are as they were. */
  ghost predicate Painted<R>(pieces: seq<Piece<R>>, init: Grid<R>, grid: Grid<R>, extents: seq<Extent>)
    requires Fits(pieces, init)
  {
    && SameShape(init, grid) && Within(pieces, extents)
    && (forall p, i :: 0 <= p < |pieces| && 0 <= i < extents[p].written ==>
          grid[pieces[p].column][pieces[p].offset + i] == pieces[p].cells[i])
    && (forall c, r :: 0 <= c < |grid| && 0 <= r < |grid[c]| && Blank(pieces, extents, c, r) ==>
      grid[c][r] == init[c][r])
  }

  /** Before anything is written. */
  lemma BlankPainted<R>(pieces: seq<Piece<R>>, init: Grid<R>, extents: seq<Extent>)
    requires Fits(pieces, init) && |extents| == |pieces| && forall p :: 0 <= p < |pieces| ==> extents[p] == Extent(0, 0)
    ensures Painted(pieces, init, init, extents)
  {
  }

  /** `cells` are written into column `c` from row `r` on. */
  function Paint<R>(grid: Grid<R>, c: nat, r: nat, cells: seq<R>): (g: Grid<R>)
    requires c < |grid| && r + |cells| <= |grid[c]|
    ensures SameShape(grid, g)
    ensures forall d, k :: 0 <= d < |g| && 0 <= k < |g[d]| ==>
              g[d][k] == if d == c && r <= k < r + |cells| then cells[k - r] else grid[d][k]
  {
    grid[c := grid[c][..r] + cells + grid[c][r + |cells|..]]
  }

  /** Cells that a piece touches next belong to no other piece, and were its own or blank before. */
  lemma OthersKept<R>(pieces: seq<Piece<R>>, grid: Grid<R>, extents: seq<Extent>, p: nat, at: nat, cells: seq<R>,
                      q: nat, i: nat)
    requires Fits(pieces, grid) && Apart(pieces) && Within(pieces, extents)
    requires p < |pieces| && q < |pieces| && p != q && at + |cells| <= |pieces[p].cells| && i < extents[q].written
    ensures Paint(grid, pieces[p].column, pieces[p].offset + at, cells)[pieces[q].column][pieces[q].offset + i]
            == grid[pieces[q].column][pieces[q].offset + i]
  {
    assert Clear(pieces[p], pieces[q]);
  }

  lemma BlankBefore<R>(pieces: seq<Piece<R>>, extents: seq<Extent>, p: nat, e: Extent, c: nat, r: nat)
    requires |extents| == |pieces| && p < |pieces| && extents[p].Touched() <= e.Touched()
    requires Blank(pieces, extents[p := e], c, r)
    ensures Blank(pieces, extents, c, r) && !pieces[p].Covers(e.Touched(), c, r)
  {
    var after := extents[p := e];
    forall q | 0 <= q < |pieces| ensures !pieces[q].Covers(extents[q].Touched(), c, r) {
      assert !pieces[q].Covers(after[q].Touched(), c, r);
    }
    assert !pieces[p].Covers(after[p].Touched(), c, r);
  }

  /** The result after piece `p` has written its next `n` cells. */
  function GridOn<R>(pieces: seq<Piece<R>>, grid: Grid<R>, extents: seq<Extent>, p: nat, n: nat): (g: Grid<R>)
    requires Fits(pieces, grid) && p < |pieces| == |extents| && extents[p].written + n <= |pieces[p].cells|
    ensures SameShape(grid, g) && Fits(pieces, g)
  {
    var q, d := pieces[p], extents[p].written;
    Paint(grid, q.column, q.offset + d, q.cells[d..d + n])
  }

  function ExtentsOn(extents: seq<Extent>, p: nat, n: nat): (e: seq<Extent>)
    requires p < |extents|
    ensures |e| == |extents|
  {
    extents[p := extents[p].(written := extents[p].written + n)]
  }

  /** The result after it has written the next `n` cells of its draft. */
  function GridDrafted<R>(pieces: seq<Piece<R>>, grid: Grid<R>, extents: seq<Extent>, p: nat, n: nat): (g: Grid<R>)
    requires Fits(pieces, grid) && p < |pieces| == |extents| && extents[p].drafted + n <= |pieces[p].draft|
    ensures SameShape(grid, g) && Fits(pieces, g)
  {
    var q, d := pieces[p], extents[p].drafted;
    Paint(grid, q.column, q.offset + d, q.draft[d..d + n])
  }

  function ExtentsDrafted(extents: seq<Extent>, p: nat, n: nat): (e: seq<Extent>)
    requires p < |extents|
    ensures |e| == |extents|
  {
    extents[p := extents[p].(drafted := extents[p].drafted + n)]
  }

  /** Every piece stands as far as it is written. */
  ghost predicate Standing<R>(pieces: seq<Piece<R>>, grid: Grid<R>, extents: seq<Extent>)
    requires Fits(pieces, grid) && Within(pieces, extents)
  {
    forall p, i :: 0 <= p < |pieces| && 0 <= i < extents[p].written ==>
      grid[pieces[p].column][pieces[p].offset + i] == pieces[p].cells[i]
  }

  lemma StandingOn<R>(pieces: seq<Piece<R>>, grid: Grid<R>, extents: seq<Extent>, p: nat, n: nat)
    requires Fits(pieces, grid) && Apart(pieces) && Within(pieces, extents) && Standing(pieces, grid, extents)
    requires p < |pieces| && extents[p].written + n <= |pieces[p].cells|
    ensures Within(pieces, ExtentsOn(extents, p, n))
    ensures Standing(pieces, GridOn(pieces, grid, extents, p, n), ExtentsOn(extents, p, n))
  {
    var d, after, g := extents[p].written, ExtentsOn(extents, p, n), GridOn(pieces, grid, extents, p, n);
    forall k, i | 0 <= k < |pieces| && 0 <= i < after[k].written
      ensures g[pieces[k].column][pieces[k].offset + i] == pieces[k].cells[i]
    {
      if k != p {
        OthersKept(pieces, grid, extents, p, d, pieces[p].cells[d..d + n], k, i);
      }
    }
  }

  lemma StandingDrafted<R>(pieces: seq<Piece<R>>, grid: Grid<R>, extents: seq<Extent>, p: nat, n: nat)
    requires Fits(pieces, grid) && Apart(pieces) && Within(pieces, extents) && Standing(pieces, grid, extents)
    requires p < |pieces| && extents[p].written == 0 && extents[p].drafted + n <= |pieces[p].draft|
    ensures Within(pieces, ExtentsDrafted(extents, p, n))
    ensures Standing(pieces, GridDrafted(pieces, grid, extents, p, n), ExtentsDrafted(extents, p, n))
  {
    var d, after, g := extents[p].drafted, ExtentsDrafted(extents, p, n), GridDrafted(pieces, grid, extents, p, n);
    forall k, i | 0 <= k < |pieces| && 0 <= i < after[k].written
      ensures g[pieces[k].column][pieces[k].offset + i] == pieces[k].cells[i]
    {
      OthersKept(pieces, grid, extents, p, d, pieces[p].draft[d..d + n], k, i);
    }
  }

  /** Writing on in one piece keeps the picture. */
  lemma PaintKeeps<R>(pieces: seq<Piece<R>>, init: Grid<R>, grid: Grid<R>, extents: seq<Extent>, p: nat, n: nat)
    requires Fits(pieces, init) && Fits(pieces, grid) && Apart(pieces) && Painted(pieces, init, grid, extents)
    requires p < |pieces| && extents[p].written + n <= |pieces[p].cells|
    ensures Painted(pieces, init, GridOn(pieces, grid, extents, p, n), ExtentsOn(extents, p, n))
  {
    StandingOn(pieces, grid, extents, p, n);
    var after, g := ExtentsOn(extents, p, n), GridOn(pieces, grid, extents, p, n);
    forall c, r | 0 <= c < |g| && 0 <= r < |g[c]| && Blank(pieces, after, c, r) ensures g[c][r] == init[c][r] {
      BlankBefore(pieces, extents, p, after[p], c, r);
    }
  }

  /** So does writing on in the draft of a piece that has not started. */
  lemma DraftKeeps<R>(pieces: seq<Piece<R>>, init: Grid<R>, grid: Grid<R>, extents: seq<Extent>, p: nat, n: nat)
    requires Fits(pieces, init) && Fits(pieces, grid) && Apart(pieces) && Painted(pieces, init, grid, extents)
    requires p < |pieces| && extents[p].written == 0 && extents[p].drafted + n <= |pieces[p].draft|
    ensures Painted(pieces, init, GridDrafted(pieces, grid, extents, p, n), ExtentsDrafted(extents, p, n))
  {
    StandingDrafted(pieces, grid, extents, p, n);
    var after, g := ExtentsDrafted(extents, p, n), GridDrafted(pieces, grid, extents, p, n);
    forall c, r | 0 <= c < |g| && 0 <= r < |g[c]| && Blank(pieces, after, c, r) ensures g[c][r] == init[c][r] {
      BlankBefore(pieces, extents, p, after[p], c, r);
    }
  }

  ghost predicate Complete<R>(pieces: seq<Piece<R>>, extents: seq<Extent>)
  {
    |extents| == |pieces| && forall p :: 0 <= p < |pieces| ==> extents[p].written == |pieces[p].cells|
  }

  /** The finished result is the same, however its writers took turns and whatever they drafted. */
  lemma CompleteUnique<R>(pieces: seq<Piece<R>>, init: Grid<R>, g: Grid<R>, e: seq<Extent>, h: Grid<R>, f: seq<Extent>)
    requires Fits(pieces, init) && Complete(pieces, e) && Complete(pieces, f)
    requires Painted(pieces, init, g, e) && Painted(pieces, init, h, f)
    ensures g == h
  {
    forall c, r | 0 <= c < |g| && 0 <= r < |g[c]| ensures g[c][r] == h[c][r] {
      if p :| 0 <= p < |pieces| && pieces[p].Covers(|pieces[p].cells|, c, r) {
        var i := r - pieces[p].offset;
        assert g[pieces[p].column][pieces[p].offset + i] == pieces[p].cells[i];
        assert h[pieces[p].column][pieces[p].offset + i] == pieces[p].cells[i];
      } else {
        assert Blank(pieces, e, c, r) && Blank(pieces, f, c, r);
      }
    }
    assert forall c :: 0 <= c < |g| ==> g[c] == h[c];
  }
}
