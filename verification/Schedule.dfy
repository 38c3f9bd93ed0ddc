/**
 * The scheduling of a collect: numeric tasks inline, on a worker pool, or in lanes with private
 * readers, while the main thread works through the text columns. A run is any sequence of actions.
 */
module Schedule {
  import opened Options
  import opened Canvas

  datatype Job<R> = Job(tasks: seq<Piece<R>>, items: seq<Piece<R>>)
  {
    function Pieces(): (s: seq<Piece<R>>)
    {
      tasks + items
    }
  }

  /**
   * No pool; a pool whose queue holds `capacity` tasks; or lanes, one submission each, where every task
   * has the private reader of its lane and a place in it.
   */
  datatype Mode = Inline | Pool(capacity: nat) | Lanes(lanes: seq<seq<nat>>, reader: seq<nat>, place: seq<nat>)
  {
    /** Every one of `n` tasks is in one lane, once, and every lane is ascending. */
    ghost predicate Valid(n: nat)
    {
      Lanes? ==>
        && |reader| == |place| == n
        && (forall t :: 0 <= t < n ==>
          reader[t] < |lanes| && place[t] < |lanes[reader[t]]| && lanes[reader[t]][place[t]] == t)
        && (forall l, j :: 0 <= l < |lanes| && 0 <= j < |lanes[l]| ==>
              lanes[l][j] < n && reader[lanes[l][j]] == l && place[lanes[l][j]] == j)
        && (forall t :: 0 <= t < n && place[t] > 0 ==> lanes[reader[t]][place[t] - 1] < t)
    }

    /** The task before `t` in its lane. */
    function Previous(n: nat, t: nat): (p: Option<nat>)
      requires Valid(n) && t < n
      ensures p.Some? ==> Lanes? && p.value < t && reader[p.value] == reader[t] && place[p.value] + 1 == place[t]
    {
      if Lanes? && place[t] > 0 then Some(lanes[reader[t]][place[t] - 1]) else None
    }
  }

  datatype Phase = Waiting | Running | Done | Failed

  datatype Fault = TaskFault(t: nat) | ItemFault(i: nat)

  /** The main thread: first submissions, text columns, remaining submissions and the join, the end. */
  datatype Main = Priming | Strings | Joining | Returned | Raised(fault: Fault)

  /**
   * The result and how far each piece has got; the flag of each task, and of each column; the tasks;
   * what was submitted; the current text item.
   */
  datatype State<R> = State(grid: Grid<R>, extents: seq<Extent>, lost: seq<bool>, flags: seq<bool>,
                            phases: seq<Phase>, starts: seq<nat>, submitted: nat, item: nat, main: Main)

  datatype Action =
    | Submit | BeginStrings | WriteDraft(n: nat) | WriteItem(n: nat) | EndItem | BeginJoin | Report
    | Start(t: nat) | WriteTask(t: nat, n: nat) | EndTask(t: nat)

  function Initial<R>(job: Job<R>, init: Grid<R>): (s: State<R>)
  {
    var n := |job.tasks|;
    State(init, seq(|job.Pieces()|, _ => Extent(0, 0)), seq(n, _ => false), seq(|init|, _ => false),
          seq(n, _ => Waiting), seq(n, _ => 0), 0, 0, Priming)
  }

  /** What is submitted before the text columns. */
  function Primed<R>(job: Job<R>, mode: Mode): (n: nat)
  {
    match mode
    case Inline => |job.tasks|
    case Pool(capacity) => if |job.tasks| < capacity then |job.tasks| else capacity
    case Lanes(lanes, _, _) => |lanes|
  }

  /** What is submitted in all. */
  function Total<R>(job: Job<R>, mode: Mode): (n: nat)
    ensures Primed(job, mode) <= n
  {
    if mode.Lanes? then |mode.lanes| else |job.tasks|
  }

  /** Task `t` is submitted. In a lane it waits for the one before, and never runs if that failed. */
  predicate InTurn<R>(mode: Mode, s: State<R>, t: nat)
    requires mode.Valid(|s.phases|) && t < |s.phases|
  {
    if mode.Lanes? then
      var p := mode.Previous(|s.phases|, t);
      mode.reader[t] < s.submitted && (p.Some? ==> s.phases[p.value] == Done)
    else t < s.submitted
  }

  predicate MayStart<R>(mode: Mode, s: State<R>, t: nat)
    requires mode.Valid(|s.phases|) && t < |s.phases|
  {
    s.phases[t] == Waiting && InTurn(mode, s, t)
  }

  /** Inline, the last task submitted has been run to its end. */
  predicate Settled<R>(mode: Mode, s: State<R>)
  {
    mode.Inline? && 0 < s.submitted <= |s.phases| ==> s.phases[s.submitted - 1] == Done
  }

  /** Inline, the last task submitted has failed. */
  predicate Stopped<R>(mode: Mode, s: State<R>)
  {
    mode.Inline? && 0 < s.submitted <= |s.phases| && s.phases[s.submitted - 1] == Failed
  }

  /** The pool has come to rest. */
  ghost predicate Quiet<R>(mode: Mode, s: State<R>)
    requires mode.Valid(|s.phases|)
  {
    forall t :: 0 <= t < |s.phases| ==> s.phases[t] != Running && !MayStart(mode, s, t)
  }

  /** The first task whose status is set. */
  function FirstFailed(phases: seq<Phase>, t: nat): (f: Option<nat>)
    requires t <= |phases|
    ensures f.Some? ==> t <= f.value < |phases| && phases[f.value] == Failed
    ensures forall u :: t <= u < (if f.Some? then f.value else |phases|) ==> phases[u] != Failed
    decreases |phases| - t
  {
    if t == |phases| then None else if phases[t] == Failed then Some(t) else FirstFailed(phases, t + 1)
  }

  /** Some task of column `c` has its flag set. */
  ghost predicate TaskFlagged<R>(tasks: seq<Piece<R>>, lost: seq<bool>, c: nat)
    requires |lost| == |tasks|
  {
    exists t :: 0 <= t < |tasks| && tasks[t].column == c && lost[t]
  }

  /** The flags of the columns, with those of their tasks. */
  ghost function Merged<R>(tasks: seq<Piece<R>>, lost: seq<bool>, flags: seq<bool>): (merged: seq<bool>)
    requires |lost| == |tasks|
    ensures |merged| == |flags|
  {
    seq(|flags|, c requires 0 <= c < |flags| => flags[c] || TaskFlagged(tasks, lost, c))
  }

  ghost predicate Sized<R>(job: Job<R>, mode: Mode, s: State<R>)
  {
    && |s.extents| == |job.Pieces()| && |s.phases| == |s.starts| == |s.lost| == |job.tasks| && s.item <= |job.items|
    && |s.flags| == |s.grid| && mode.Valid(|job.tasks|) && Fits(job.Pieces(), s.grid)
  }

  /** The extent of the text item at hand. */
  function ItemExtent<R>(job: Job<R>, s: State<R>): (e: Extent)
    requires |s.extents| == |job.Pieces()| && s.item < |job.items|
  {
    s.extents[|job.tasks| + s.item]
  }

  ghost predicate Enabled<R>(job: Job<R>, mode: Mode, s: State<R>, a: Action)
    requires Sized(job, mode, s)
  {
    match a
    case Submit =>
      || (s.main == Priming && s.submitted < Primed(job, mode) && Settled(mode, s))
      || (s.main == Joining && s.submitted < Total(job, mode))
    case BeginStrings => s.main == Priming && s.submitted == Primed(job, mode) && Settled(mode, s)
    case WriteDraft(k) =>
      && s.main == Strings && s.item < |job.items| && ItemExtent(job, s).written == 0
      && 1 <= k <= |job.items[s.item].draft| - ItemExtent(job, s).drafted
    case WriteItem(k) =>
      && s.main == Strings && s.item < |job.items| && ItemExtent(job, s).drafted == |job.items[s.item].draft|
      && 1 <= k <= job.items[s.item].Limit() - ItemExtent(job, s).written
    case EndItem =>
      s.main == Strings && s.item < |job.items|
        && ItemExtent(job, s) == Extent(job.items[s.item].Limit(), |job.items[s.item].draft|)
    case BeginJoin => s.main == Strings && s.item == |job.items|
    case Report =>
      (s.main == Joining && s.submitted == Total(job, mode) && Quiet(mode, s))
        || (s.main == Priming && Stopped(mode, s))
    case Start(t) => t < |job.tasks| && MayStart(mode, s, t)
    case WriteTask(t, k) => t < |job.tasks| && s.phases[t] == Running
      && 1 <= k <= job.tasks[t].Limit() - s.extents[t].written
    case EndTask(t) => t < |job.tasks| && s.phases[t] == Running && s.extents[t].written == job.tasks[t].Limit()
  }

  /** Piece `p` writes its next `k` cells. */
  ghost function Written<R>(job: Job<R>, s: State<R>, p: nat, k: nat): (r: State<R>)
    requires |s.extents| == |job.Pieces()| && Fits(job.Pieces(), s.grid) && p < |s.extents|
    requires s.extents[p].written + k <= |job.Pieces()[p].cells|
    ensures |r.grid| == |s.grid| && Fits(job.Pieces(), r.grid) && |r.extents| == |s.extents|
  {
    s.(grid := GridOn(job.Pieces(), s.grid, s.extents, p, k), extents := ExtentsOn(s.extents, p, k))
  }

  /** Piece `p` writes the next `k` cells of its draft. */
  ghost function Drafted<R>(job: Job<R>, s: State<R>, p: nat, k: nat): (r: State<R>)
    requires |s.extents| == |job.Pieces()| && Fits(job.Pieces(), s.grid) && p < |s.extents|
    requires s.extents[p].drafted + k <= |job.Pieces()[p].draft|
    ensures |r.grid| == |s.grid| && Fits(job.Pieces(), r.grid) && |r.extents| == |s.extents|
  {
    s.(grid := GridDrafted(job.Pieces(), s.grid, s.extents, p, k), extents := ExtentsDrafted(s.extents, p, k))
  }

  /** Which piece an action writes to. */
  function Writes<R>(job: Job<R>, s: State<R>, a: Action): (p: nat)
  {
    if a.WriteTask? then a.t else |job.tasks| + s.item
  }

  lemma PieceAtHand<R>(job: Job<R>, mode: Mode, s: State<R>, a: Action)
    requires Sized(job, mode, s) && Enabled(job, mode, s, a) && (a.WriteTask? || a.WriteItem? || a.WriteDraft?)
    ensures var p := Writes(job, s, a);
            && p < |s.extents| && p < |job.Pieces()|
            && job.Pieces()[p] == (if a.WriteTask? then job.tasks[p] else job.items[s.item])
            && job.Pieces()[p].Valid()
  {
  }

  ghost function After<R>(job: Job<R>, mode: Mode, s: State<R>, a: Action): (r: State<R>)
    requires Sized(job, mode, s) && Enabled(job, mode, s, a)
    ensures Sized(job, mode, r)
  {
    var n := |job.tasks|;
    match a
    case Submit => s.(submitted := s.submitted + 1)
    case BeginStrings => s.(main := Strings)
    case WriteDraft(k) =>
      PieceAtHand(job, mode, s, a);
      Drafted(job, s, n + s.item, k)
    case WriteItem(k) =>
      PieceAtHand(job, mode, s, a);
      var q, d := job.items[s.item], ItemExtent(job, s).written;
      Written(job, s, n + s.item, k).(flags := s.flags[q.column := s.flags[q.column] || q.LosesIn(d, d + k)])
    case EndItem => if job.items[s.item].fails.Some? then s.(main := Raised(ItemFault(s.item)))
      else s.(item := s.item + 1)
    case BeginJoin => s.(main := Joining)
    case Report =>
      var f := FirstFailed(s.phases, 0);
      if f.Some? then s.(main := Raised(TaskFault(f.value)))
        else s.(main := Returned, flags := Merged(job.tasks, s.lost, s.flags))
    case Start(t) => s.(phases := s.phases[t := Running], starts := s.starts[t := s.starts[t] + 1])
    case WriteTask(t, k) =>
      PieceAtHand(job, mode, s, a);
      var q, d := job.tasks[t], s.extents[t].written;
      Written(job, s, t, k).(lost := s.lost[t := s.lost[t] || q.LosesIn(d, d + k)])
    case EndTask(t) => s.(phases := s.phases[t := if job.tasks[t].fails.Some? then Failed else Done])
  }

  // ---- what every action keeps ----

  /** Phases and progress of the tasks go together. */
  ghost predicate TasksTracked<R>(job: Job<R>, mode: Mode, s: State<R>)
    requires Sized(job, mode, s)
  {
    forall t :: 0 <= t < |job.tasks| ==>
      && s.extents[t].written <= job.tasks[t].Limit() && s.extents[t].drafted == 0
      && (s.phases[t] == Waiting ==> s.extents[t].written == 0)
      && (s.phases[t] == Done ==> job.tasks[t].fails.None? && s.extents[t].written == |job.tasks[t].cells|)
      && (s.phases[t] == Failed ==> job.tasks[t].fails.Some?)
  }

  /** Text item `i` is behind, at hand or ahead. */
  ghost predicate ItemTracked<R>(job: Job<R>, s: State<R>, i: nat)
    requires |s.extents| == |job.Pieces()| && i < |job.items|
  {
    var e := s.extents[|job.tasks| + i];
    && e.written <= job.items[i].Limit() && e.drafted <= |job.items[i].draft|
    && (e.written > 0 ==> e.drafted == |job.items[i].draft|)
    && (i < s.item ==> job.items[i].fails.None? && e.written == |job.items[i].cells|)
    && (i > s.item ==> e.written == 0)
  }

  /** The text items are done one after the other. */
  ghost predicate ItemsTracked<R>(job: Job<R>, mode: Mode, s: State<R>)
    requires Sized(job, mode, s)
  {
    forall i :: 0 <= i < |job.items| ==> ItemTracked(job, s, i)
  }

  /** A task's own flag tells whether it has lost a value so far. */
  ghost predicate LostTracked<R>(job: Job<R>, mode: Mode, s: State<R>)
    requires Sized(job, mode, s)
  {
    forall t :: 0 <= t < |job.tasks| ==>
      && job.tasks[t].Valid() && s.extents[t].written <= |job.tasks[t].lossy|
      && (s.lost[t] <==> job.tasks[t].LosesIn(0, s.extents[t].written))
  }

  /** Text item `i` has lost a value so far. */
  ghost predicate HasLost<R>(job: Job<R>, s: State<R>, i: nat)
    requires |s.extents| == |job.Pieces()| && i < |job.items|
  {
    var e := s.extents[|job.tasks| + i];
    e.written <= |job.items[i].lossy| && job.items[i].LosesIn(0, e.written)
  }

  /** Some text item of column `c` has. */
  ghost predicate ItemLoses<R>(job: Job<R>, s: State<R>, c: nat)
    requires |s.extents| == |job.Pieces()|
  {
    exists i :: 0 <= i < |job.items| && job.items[i].column == c && HasLost(job, s, i)
  }

  /** A column's flag tells the same of its items, and in the end of its tasks too. */
  ghost predicate FlagsTracked<R>(job: Job<R>, mode: Mode, s: State<R>)
    requires Sized(job, mode, s)
  {
    forall c :: 0 <= c < |s.flags| ==>
      (s.flags[c] <==> ItemLoses(job, s, c) || (s.main == Returned && TaskFlagged(job.tasks, s.lost, c)))
  }

  /** A task was started once, or not yet. */
  ghost predicate StartedOnce<R>(s: State<R>)
    requires |s.starts| == |s.phases|
  {
    forall t :: 0 <= t < |s.phases| ==> s.starts[t] == if s.phases[t] == Waiting then 0 else 1
  }

  /** Tasks started were submitted; in a lane, the one before has been done. */
  ghost predicate StartedInTurn<R>(mode: Mode, s: State<R>)
    requires mode.Valid(|s.phases|)
  {
    forall t :: 0 <= t < |s.phases| && s.phases[t] != Waiting ==> InTurn(mode, s, t)
  }

  ghost predicate AllDone<R>(s: State<R>, n: int)
    requires n <= |s.phases|
  {
    forall t :: 0 <= t < n ==> s.phases[t] == Done
  }

  ghost predicate NoneFails<R>(pieces: seq<Piece<R>>, n: nat)
    requires n <= |pieces|
  {
    forall p :: 0 <= p < n ==> pieces[p].fails.None?
  }

  /** Where the main thread is, and what that says about the rest. */
  ghost predicate MainThread<R>(job: Job<R>, mode: Mode, s: State<R>)
    requires Sized(job, mode, s)
  {
    var n := |job.tasks|;
    && s.submitted <= Total(job, mode)
    && (mode.Inline? ==> AllDone(s, s.submitted - 1))
    && match s.main
       case Priming => s.submitted <= Primed(job, mode) && s.item == 0
       case Strings => s.submitted == Primed(job, mode) && (mode.Inline? ==> AllDone(s, n))
       case Joining => s.item == |job.items| && (mode.Inline? ==> AllDone(s, n))
       case Returned => s.item == |job.items| && AllDone(s, n)
       case Raised(TaskFault(t)) =>
         t < n && job.tasks[t].fails.Some? && NoneFails(job.tasks, t) && (mode.Inline? || s.item == |job.items|)
       case Raised(ItemFault(i)) =>
         i == s.item < |job.items| && job.items[i].fails.Some? && (mode.Inline? ==> AllDone(s, n))
  }

  ghost predicate Orderly<R>(job: Job<R>, mode: Mode, s: State<R>)
    requires Sized(job, mode, s)
  {
    && TasksTracked(job, mode, s) && ItemsTracked(job, mode, s)
    && StartedOnce(s) && StartedInTurn(mode, s) && MainThread(job, mode, s)
  }

  ghost predicate Inv<R>(job: Job<R>, init: Grid<R>, mode: Mode, s: State<R>)
    requires Fits(job.Pieces(), init)
  {
    && Sized(job, mode, s) && Orderly(job, mode, s)
    && Painted(job.Pieces(), init, s.grid, s.extents)
    && LostTracked(job, mode, s) && FlagsTracked(job, mode, s)
  }

  lemma InitialOrderly<R>(job: Job<R>, init: Grid<R>, mode: Mode)
    requires mode.Valid(|job.tasks|) && Fits(job.Pieces(), init)
    ensures Sized(job, mode, Initial(job, init)) && Orderly(job, mode, Initial(job, init))
  {
  }

  lemma InitialFlags<R>(job: Job<R>, init: Grid<R>, mode: Mode)
    requires mode.Valid(|job.tasks|) && Fits(job.Pieces(), init) && Sized(job, mode, Initial(job, init))
    ensures LostTracked(job, mode, Initial(job, init)) && FlagsTracked(job, mode, Initial(job, init))
  {
    forall t | 0 <= t < |job.tasks| ensures job.tasks[t].Valid() {
      assert job.Pieces()[t] == job.tasks[t];
    }
    forall i | 0 <= i < |job.items| ensures !HasLost(job, Initial(job, init), i) {
    }
  }

  lemma InitialInv<R>(job: Job<R>, init: Grid<R>, mode: Mode)
    requires mode.Valid(|job.tasks|) && Fits(job.Pieces(), init)
    ensures Inv(job, init, mode, Initial(job, init))
  {
    InitialOrderly(job, init, mode);
    InitialFlags(job, init, mode);
    BlankPainted(job.Pieces(), init, Initial(job, init).extents);
  }

  lemma TasksKept<R>(job: Job<R>, mode: Mode, s: State<R>, a: Action)
    requires Sized(job, mode, s) && Enabled(job, mode, s, a) && TasksTracked(job, mode, s)
    ensures TasksTracked(job, mode, After(job, mode, s, a))
  {
  }

  lemma ItemsKept<R>(job: Job<R>, mode: Mode, s: State<R>, a: Action)
    requires Sized(job, mode, s) && Enabled(job, mode, s, a) && ItemsTracked(job, mode, s)
    ensures ItemsTracked(job, mode, After(job, mode, s, a))
  {
    forall i | 0 <= i < |job.items| ensures ItemTracked(job, After(job, mode, s, a), i) {
      ItemKept(job, mode, s, a, i);
    }
  }

  lemma ItemKept<R>(job: Job<R>, mode: Mode, s: State<R>, a: Action, i: nat)
    requires Sized(job, mode, s) && Enabled(job, mode, s, a) && i < |job.items| && ItemTracked(job, s, i)
    ensures ItemTracked(job, After(job, mode, s, a), i)
  {
  }

  lemma StartsKept<R>(job: Job<R>, mode: Mode, s: State<R>, a: Action)
    requires Sized(job, mode, s) && Enabled(job, mode, s, a) && StartedOnce(s)
    ensures StartedOnce(After(job, mode, s, a))
  {
  }

  lemma TurnsKept<R>(job: Job<R>, mode: Mode, s: State<R>, a: Action)
    requires Sized(job, mode, s) && Enabled(job, mode, s, a) && StartedInTurn(mode, s)
    ensures StartedInTurn(mode, After(job, mode, s, a))
  {
    var r := After(job, mode, s, a);
    forall t | 0 <= t < |r.phases| && r.phases[t] != Waiting ensures InTurn(mode, r, t) {
      assert InTurn(mode, s, t);
    }
  }

  lemma NothingWritten<R>(job: Job<R>, mode: Mode, s: State<R>, a: Action)
    requires Sized(job, mode, s) && Enabled(job, mode, s, a) && !a.WriteItem? && !a.WriteTask? && !a.WriteDraft?
    ensures var r := After(job, mode, s, a); r.grid == s.grid && r.extents == s.extents && r.lost == s.lost
  {
  }

  /** The picture after an action that writes. */
  lemma WritesPiece<R>(job: Job<R>, mode: Mode, s: State<R>, a: Action)
    requires Sized(job, mode, s) && Enabled(job, mode, s, a) && (a.WriteItem? || a.WriteTask?)
    ensures var p := Writes(job, s, a);
            && p < |s.extents| && s.extents[p].written + a.n <= |job.Pieces()[p].cells|
            && After(job, mode, s, a).grid == Written(job, s, p, a.n).grid
            && After(job, mode, s, a).extents == Written(job, s, p, a.n).extents
  {
    PieceAtHand(job, mode, s, a);
  }

  lemma WritesDraft<R>(job: Job<R>, mode: Mode, s: State<R>, a: Action)
    requires Sized(job, mode, s) && Enabled(job, mode, s, a) && a.WriteDraft?
    ensures var p := Writes(job, s, a);
            && p < |s.extents| && s.extents[p].written == 0 && s.extents[p].drafted + a.n <= |job.Pieces()[p].draft|
            && After(job, mode, s, a) == Drafted(job, s, p, a.n)
  {
    PieceAtHand(job, mode, s, a);
  }

  lemma WrittenKept<R>(job: Job<R>, init: Grid<R>, s: State<R>, p: nat, k: nat)
    requires |s.extents| == |job.Pieces()| && Fits(job.Pieces(), init) && Fits(job.Pieces(), s.grid)
             && Apart(job.Pieces())
    requires Painted(job.Pieces(), init, s.grid, s.extents)
    requires p < |s.extents| && s.extents[p].written + k <= |job.Pieces()[p].cells|
    ensures Painted(job.Pieces(), init, Written(job, s, p, k).grid, Written(job, s, p, k).extents)
  {
    PaintKeeps(job.Pieces(), init, s.grid, s.extents, p, k);
  }

  lemma DraftedKept<R>(job: Job<R>, init: Grid<R>, s: State<R>, p: nat, k: nat)
    requires |s.extents| == |job.Pieces()| && Fits(job.Pieces(), init) && Fits(job.Pieces(), s.grid)
             && Apart(job.Pieces())
    requires Painted(job.Pieces(), init, s.grid, s.extents)
    requires p < |s.extents| && s.extents[p].written == 0 && s.extents[p].drafted + k <= |job.Pieces()[p].draft|
    ensures Painted(job.Pieces(), init, Drafted(job, s, p, k).grid, Drafted(job, s, p, k).extents)
  {
    DraftKeeps(job.Pieces(), init, s.grid, s.extents, p, k);
  }

  lemma PaintKept<R>(job: Job<R>, init: Grid<R>, mode: Mode, s: State<R>, a: Action)
    requires Sized(job, mode, s) && Fits(job.Pieces(), init) && Enabled(job, mode, s, a)
    requires Apart(job.Pieces()) && Painted(job.Pieces(), init, s.grid, s.extents)
    ensures Painted(job.Pieces(), init, After(job, mode, s, a).grid, After(job, mode, s, a).extents)
  {
    if a.WriteItem? || a.WriteTask? {
      WritesPiece(job, mode, s, a);
      WrittenKept(job, init, s, Writes(job, s, a), a.n);
    } else if a.WriteDraft? {
      WritesDraft(job, mode, s, a);
      DraftedKept(job, init, s, Writes(job, s, a), a.n);
    } else {
      NothingWritten(job, mode, s, a);
    }
  }

  lemma LostKept<R>(job: Job<R>, mode: Mode, s: State<R>, a: Action)
    requires Sized(job, mode, s) && Enabled(job, mode, s, a) && LostTracked(job, mode, s)
    ensures LostTracked(job, mode, After(job, mode, s, a))
  {
    if a.WriteTask? {
      PieceAtHand(job, mode, s, a);
      var q, d := job.tasks[a.t], s.extents[a.t].written;
      assert q.LosesIn(0, d + a.n) <==> q.LosesIn(0, d) || q.LosesIn(d, d + a.n);
    }
  }

  lemma FlagsKept<R>(job: Job<R>, mode: Mode, s: State<R>, a: Action)
    requires Sized(job, mode, s) && Enabled(job, mode, s, a) && MainThread(job, mode, s)
    requires ItemsTracked(job, mode, s) && FlagsTracked(job, mode, s)
    ensures FlagsTracked(job, mode, After(job, mode, s, a))
  {
    var r := After(job, mode, s, a);
    if a.WriteItem? {
      PieceAtHand(job, mode, s, a);
      ItemFlagKept(job, mode, s, a.n);
    } else {
      forall c | 0 <= c < |s.flags| ensures ItemLoses(job, r, c) <==> ItemLoses(job, s, c) {
        SameItems(job, mode, s, a, c);
      }
    }
  }

  lemma SameItems<R>(job: Job<R>, mode: Mode, s: State<R>, a: Action, c: nat)
    requires Sized(job, mode, s) && Enabled(job, mode, s, a) && !a.WriteItem?
    ensures ItemLoses(job, After(job, mode, s, a), c) <==> ItemLoses(job, s, c)
  {
    var r := After(job, mode, s, a);
    forall i | 0 <= i < |job.items| ensures HasLost(job, r, i) == HasLost(job, s, i) {
      assert r.extents[|job.tasks| + i].written == s.extents[|job.tasks| + i].written;
    }
  }

  lemma ItemFlagKept<R>(job: Job<R>, mode: Mode, s: State<R>, k: nat)
    requires Sized(job, mode, s) && Enabled(job, mode, s, WriteItem(k)) && FlagsTracked(job, mode, s)
    requires job.items[s.item].Valid() && s.main != Returned
    ensures FlagsTracked(job, mode, After(job, mode, s, WriteItem(k)))
  {
    var r := After(job, mode, s, WriteItem(k));
    var q, d := job.items[s.item], ItemExtent(job, s).written;
    assert q.LosesIn(0, d + k) <==> q.LosesIn(0, d) || q.LosesIn(d, d + k);
    forall i | 0 <= i < |job.items|
      ensures HasLost(job, r, i) <==> HasLost(job, s, i) || (i == s.item && q.LosesIn(d, d + k))
    {
      assert i != s.item ==> r.extents[|job.tasks| + i] == s.extents[|job.tasks| + i];
    }
  }

  /** At rest, all tasks before the first failure have been done. */
  lemma {:induction false} QuietDone<R>(job: Job<R>, mode: Mode, s: State<R>, t: nat)
    requires Sized(job, mode, s) && Quiet(mode, s) && s.submitted == Total(job, mode)
    requires t < |s.phases| && forall u :: 0 <= u <= t ==> s.phases[u] != Failed
    ensures s.phases[t] == Done
    decreases t
  {
    var p := mode.Previous(|s.phases|, t);
    if p.Some? {
      QuietDone(job, mode, s, p.value);
    }
    assert !MayStart(mode, s, t);
  }

  lemma ReportKept<R>(job: Job<R>, mode: Mode, s: State<R>)
    requires Sized(job, mode, s) && Enabled(job, mode, s, Report)
    requires TasksTracked(job, mode, s) && StartedInTurn(mode, s) && MainThread(job, mode, s)
    ensures MainThread(job, mode, After(job, mode, s, Report))
  {
    var f := FirstFailed(s.phases, 0);
    forall t | 0 <= t < (if f.Some? then f.value else |s.phases|) ensures s.phases[t] == Done {
      if s.main == Joining {
        QuietDone(job, mode, s, t);
      }
    }
  }

  lemma MainKept<R>(job: Job<R>, mode: Mode, s: State<R>, a: Action)
    requires Sized(job, mode, s) && Enabled(job, mode, s, a)
    requires TasksTracked(job, mode, s) && StartedInTurn(mode, s) && MainThread(job, mode, s)
    ensures MainThread(job, mode, After(job, mode, s, a))
  {
    if a == Report {
      ReportKept(job, mode, s);
    }
  }

  lemma OrderKept<R>(job: Job<R>, mode: Mode, s: State<R>, a: Action)
    requires Sized(job, mode, s) && Enabled(job, mode, s, a) && Orderly(job, mode, s)
    ensures Orderly(job, mode, After(job, mode, s, a))
  {
    TasksKept(job, mode, s, a);
    ItemsKept(job, mode, s, a);
    StartsKept(job, mode, s, a);
    TurnsKept(job, mode, s, a);
    MainKept(job, mode, s, a);
  }

  lemma ActionKeeps<R>(job: Job<R>, init: Grid<R>, mode: Mode, s: State<R>, a: Action)
    requires Fits(job.Pieces(), init) && Apart(job.Pieces()) && Inv(job, init, mode, s) && Enabled(job, mode, s, a)
    ensures Inv(job, init, mode, After(job, mode, s, a))
  {
    OrderKept(job, mode, s, a);
    PaintKept(job, init, mode, s, a);
    LostKept(job, mode, s, a);
    FlagsKept(job, mode, s, a);
  }

  // ---- runs ----

  /** The state that the actions of `run`, in this order, lead to, if each is possible when it comes. */
  ghost function Reached<R>(job: Job<R>, init: Grid<R>, mode: Mode, run: seq<Action>): (s: Option<State<R>>)
    requires mode.Valid(|job.tasks|) && Fits(job.Pieces(), init)
    ensures s.Some? ==> Sized(job, mode, s.value)
    decreases |run|
  {
    if run == [] then Some(Initial(job, init))
    else
      var a, r := run[|run| - 1], Reached(job, init, mode, run[..|run| - 1]);
      if r.Some? && Enabled(job, mode, r.value, a) then Some(After(job, mode, r.value, a)) else None
  }

  /** Every state of every run. */
  lemma {:induction false} RunKeeps<R>(job: Job<R>, init: Grid<R>, mode: Mode, run: seq<Action>)
    requires mode.Valid(|job.tasks|) && Fits(job.Pieces(), init) && Apart(job.Pieces())
    requires Reached(job, init, mode, run).Some?
    ensures Inv(job, init, mode, Reached(job, init, mode, run).value)
    decreases |run|
  {
    if run == [] {
      InitialInv(job, init, mode);
    } else {
      var r := run[..|run| - 1];
      RunKeeps(job, init, mode, r);
      ActionKeeps(job, init, mode, Reached(job, init, mode, r).value, run[|run| - 1]);
    }
  }

  // ---- readers ----

  datatype Reader = Shared | Private(lane: nat)

  /** Work that holds a column reader open: a task, or the text item at hand. */
  datatype Use = TaskUse(t: nat) | ItemUse(i: nat)

  /** The main thread reads through the shared reader; so do tasks that are not in lanes. */
  function ReaderOf(mode: Mode, u: Use): (r: Reader)
    requires u.TaskUse? && mode.Lanes? ==> u.t < |mode.reader|
  {
    if u.TaskUse? && mode.Lanes? then Private(mode.reader[u.t]) else Shared
  }

  ghost predicate InUse<R>(job: Job<R>, s: State<R>, u: Use)
  {
    match u
    case TaskUse(t) => t < |s.phases| && t < |job.tasks| && s.phases[t] == Running
    case ItemUse(i) => s.main == Strings && i == s.item < |job.items|
  }

  /** Once a task of a lane has started, all earlier ones of the lane are done. */
  lemma {:induction false} EarlierInLaneDone<R>(mode: Mode, s: State<R>, t: nat, u: nat)
    requires mode.Lanes? && mode.Valid(|s.phases|) && StartedInTurn(mode, s)
    requires t < |s.phases| && u < |s.phases| && mode.reader[t] == mode.reader[u] && mode.place[u] < mode.place[t]
    requires s.phases[t] != Waiting
    ensures s.phases[u] == Done
    decreases mode.place[t]
  {
    assert InTurn(mode, s, t);
    var p := mode.Previous(|s.phases|, t).value;
    if mode.place[p] == mode.place[u] {
      assert p == mode.lanes[mode.reader[t]][mode.place[u]] == u;
    } else {
      EarlierInLaneDone(mode, s, p, u);
    }
  }

  lemma OneTaskPerLane<R>(mode: Mode, s: State<R>, t: nat, u: nat)
    requires mode.Lanes? && mode.Valid(|s.phases|) && StartedInTurn(mode, s)
    requires t < |s.phases| && u < |s.phases| && s.phases[t] == Running && s.phases[u] == Running
    requires mode.reader[t] == mode.reader[u]
    ensures t == u
  {
    if mode.place[u] < mode.place[t] {
      EarlierInLaneDone(mode, s, t, u);
    } else if mode.place[t] < mode.place[u] {
      EarlierInLaneDone(mode, s, u, t);
    } else {
      assert t == mode.lanes[mode.reader[t]][mode.place[t]] == u;
    }
  }

  /** A pool is primed with no more than its queue holds, and the text columns begin right after that. */
  lemma PrimedFirst<R>(job: Job<R>, init: Grid<R>, capacity: nat, run: seq<Action>)
    requires Fits(job.Pieces(), init) && Apart(job.Pieces()) && Reached(job, init, Pool(capacity), run).Some?
    ensures var s := Reached(job, init, Pool(capacity), run).value;
            && (s.main == Priming ==> s.submitted <= capacity && s.submitted <= |job.tasks|)
            && (s.main == Strings ==> s.submitted == if |job.tasks| < capacity then |job.tasks| else capacity)
  {
    RunKeeps(job, init, Pool(capacity), run);
  }

  /**
   * In every state of every run, inline or in lanes, a reader has one user at a time: the main thread's
   * reader serves the text columns and inline tasks, a private one the tasks of its lane. Only on a
   * pool, over a mapped file, is a reader shared.
   */
  lemma OneUserPerReader<R>(job: Job<R>, init: Grid<R>, mode: Mode, run: seq<Action>, u: Use, v: Use)
    requires mode.Valid(|job.tasks|) && !mode.Pool? && Fits(job.Pieces(), init) && Apart(job.Pieces())
    requires Reached(job, init, mode, run).Some?
    requires var s := Reached(job, init, mode, run).value; InUse(job, s, u) && InUse(job, s, v)
    requires ReaderOf(mode, u) == ReaderOf(mode, v)
    ensures u == v
  {
    RunKeeps(job, init, mode, run);
    var s := Reached(job, init, mode, run).value;
    if mode.Lanes? && u.TaskUse? {
      OneTaskPerLane(mode, s, u.t, v.t);
    } else if mode.Inline? {
      assert forall t :: 0 <= t < |s.phases| && s.phases[t] == Running ==> InTurn(mode, s, t);
    }
  }

  // ---- how a run ends ----

  function FirstFailing<R>(pieces: seq<Piece<R>>, p: nat): (f: Option<nat>)
    requires p <= |pieces|
    ensures f.Some? ==> p <= f.value < |pieces| && pieces[f.value].fails.Some?
    ensures forall q :: p <= q < (if f.Some? then f.value else |pieces|) ==> pieces[q].fails.None?
    decreases |pieces| - p
  {
    if p == |pieces| then None else if pieces[p].fails.Some? then Some(p) else FirstFailing(pieces, p + 1)
  }

  /** The end of a collect: a result unless something fails; else an error, inline of the tasks first. */
  function Verdict<R>(job: Job<R>, mode: Mode): (end: Main)
  {
    var t, i := FirstFailing(job.tasks, 0), FirstFailing(job.items, 0);
    if mode.Inline? && t.Some? then Raised(TaskFault(t.value))
    else if i.Some? then Raised(ItemFault(i.value))
    else if t.Some? then Raised(TaskFault(t.value))
    else Returned
  }

  /** Which error is reported depends on the mode only if both a task and a text item fail. */
  lemma ErrorDependsOnMode<R>(job: Job<R>, mode: Mode)
    requires !mode.Inline?
    ensures Verdict(job, Inline) == Verdict(job, mode) <==>
              NoneFails(job.tasks, |job.tasks|) || NoneFails(job.items, |job.items|)
  {
    var t, i := FirstFailing(job.tasks, 0), FirstFailing(job.items, 0);
  }

  predicate Ended<R>(s: State<R>)
  {
    s.main.Returned? || s.main.Raised?
  }

  lemma ReturnedComplete<R>(job: Job<R>, mode: Mode, s: State<R>)
    requires Sized(job, mode, s) && Orderly(job, mode, s) && s.main == Returned
    ensures Complete(job.Pieces(), s.extents)
  {
    forall p | 0 <= p < |job.Pieces()| ensures s.extents[p].written == |job.Pieces()[p].cells| {
      if p >= |job.tasks| {
        var i := p - |job.tasks|;
        assert job.Pieces()[p] == job.items[i] && ItemTracked(job, s, i);
      }
    }
  }

  lemma EndDecided<R>(job: Job<R>, mode: Mode, s: State<R>)
    requires Sized(job, mode, s) && Orderly(job, mode, s) && Ended(s)
    ensures s.main == Verdict(job, mode)
  {
    DoneFailsNot(job, mode, s);
    match s.main
    case Raised(TaskFault(t)) => FirstIs(job.tasks, t);
    case Raised(ItemFault(i)) => FirstIs(job.items, i);
    case _ =>
  }

  lemma FirstIs<R>(pieces: seq<Piece<R>>, p: nat)
    requires p < |pieces| && NoneFails(pieces, p) && pieces[p].fails.Some?
    ensures FirstFailing(pieces, 0) == Some(p)
  {
  }

  /** Tasks that are done, and items that are behind, do not fail. */
  lemma DoneFailsNot<R>(job: Job<R>, mode: Mode, s: State<R>)
    requires Sized(job, mode, s) && TasksTracked(job, mode, s) && ItemsTracked(job, mode, s)
    ensures AllDone(s, |job.tasks|) ==> FirstFailing(job.tasks, 0).None?
    ensures NoneFails(job.items, s.item)
    ensures s.item == |job.items| ==> FirstFailing(job.items, 0).None?
  {
    forall i | 0 <= i < s.item ensures job.items[i].fails.None? {
      assert ItemTracked(job, s, i);
    }
  }

  /** Some value of column `c` was lost, by a task or by an item. */
  ghost predicate PieceLoses<R>(pieces: seq<Piece<R>>, c: nat)
  {
    exists p :: 0 <= p < |pieces| && pieces[p].column == c && pieces[p].LosesIn(0, |pieces[p].lossy|)
  }

  lemma ItemDecided<R>(job: Job<R>, mode: Mode, s: State<R>, i: nat)
    requires Sized(job, mode, s) && Complete(job.Pieces(), s.extents) && i < |job.items|
    ensures HasLost(job, s, i) <==> job.items[i].LosesIn(0, |job.items[i].lossy|)
  {
    assert job.Pieces()[|job.tasks| + i] == job.items[i];
  }

  lemma TaskDecided<R>(job: Job<R>, mode: Mode, s: State<R>, t: nat)
    requires Sized(job, mode, s) && Complete(job.Pieces(), s.extents) && LostTracked(job, mode, s) && t < |job.tasks|
    ensures s.lost[t] <==> job.tasks[t].LosesIn(0, |job.tasks[t].lossy|)
  {
    assert job.Pieces()[t] == job.tasks[t];
  }

  lemma FlagsDecided<R>(job: Job<R>, mode: Mode, s: State<R>, c: nat)
    requires Sized(job, mode, s) && s.main == Returned && Complete(job.Pieces(), s.extents)
    requires LostTracked(job, mode, s) && FlagsTracked(job, mode, s) && c < |s.flags|
    ensures s.flags[c] <==> PieceLoses(job.Pieces(), c)
  {
    var pieces, n := job.Pieces(), |job.tasks|;
    if i :| 0 <= i < |job.items| && job.items[i].column == c && HasLost(job, s, i) {
      ItemDecided(job, mode, s, i);
      assert pieces[n + i] == job.items[i];
    }
    if t :| 0 <= t < n && job.tasks[t].column == c && s.lost[t] {
      TaskDecided(job, mode, s, t);
      assert pieces[t] == job.tasks[t];
    }
    if p :| 0 <= p < |pieces| && pieces[p].column == c && pieces[p].LosesIn(0, |pieces[p].lossy|) {
      if p < n {
        TaskDecided(job, mode, s, p);
        assert TaskFlagged(job.tasks, s.lost, c);
      } else {
        ItemDecided(job, mode, s, p - n);
        assert ItemLoses(job, s, c);
      }
    }
  }

  /**
   * Whatever the schedule, a run can end in one way only. If it returns, every task was started
   * exactly once, every piece is complete, and a column is flagged exactly if a value of it was lost.
   */
  lemma EndIsVerdict<R>(job: Job<R>, init: Grid<R>, mode: Mode, run: seq<Action>)
    requires mode.Valid(|job.tasks|) && Fits(job.Pieces(), init) && Apart(job.Pieces())
    requires Reached(job, init, mode, run).Some? && Ended(Reached(job, init, mode, run).value)
    ensures var s := Reached(job, init, mode, run).value;
            && s.main == Verdict(job, mode)
            && Painted(job.Pieces(), init, s.grid, s.extents)
            && (s.main == Returned ==>
                  && (forall t :: 0 <= t < |job.tasks| ==> s.starts[t] == 1)
                  && Complete(job.Pieces(), s.extents)
                  && (forall c :: 0 <= c < |s.flags| ==> (s.flags[c] <==> PieceLoses(job.Pieces(), c))))
  {
    RunKeeps(job, init, mode, run);
    var s := Reached(job, init, mode, run).value;
    EndDecided(job, mode, s);
    if s.main == Returned {
      ReturnedComplete(job, mode, s);
      forall c | 0 <= c < |s.flags| ensures s.flags[c] <==> PieceLoses(job.Pieces(), c) {
        FlagsDecided(job, mode, s, c);
      }
    }
  }

  /** Inline or parallel, with any lanes: two runs that return leave the same result and the same flags. */
  lemma SameResult<R>(job: Job<R>, init: Grid<R>, mode: Mode, run: seq<Action>, mode': Mode, run': seq<Action>)
    requires mode.Valid(|job.tasks|) && mode'.Valid(|job.tasks|) && Fits(job.Pieces(), init) && Apart(job.Pieces())
    requires Reached(job, init, mode, run).Some? && Reached(job, init, mode', run').Some?
    requires Reached(job, init, mode, run).value.main == Returned
             && Reached(job, init, mode', run').value.main == Returned
    ensures var s, s' := Reached(job, init, mode, run).value, Reached(job, init, mode', run').value;
            s.grid == s'.grid && s.flags == s'.flags
  {
    EndIsVerdict(job, init, mode, run);
    EndIsVerdict(job, init, mode', run');
    var s, s' := Reached(job, init, mode, run).value, Reached(job, init, mode', run').value;
    CompleteUnique(job.Pieces(), init, s.grid, s.extents, s'.grid, s'.extents);
  }

  // ---- every run ends ----

  /** The cells that a piece still has to write. */
  function Rest<R>(piece: Piece<R>, e: Extent): (w: int)
  {
    piece.Limit() - e.written + |piece.draft| - e.drafted
  }

  /** The cells that the first `n` pieces still have to write. */
  function Left<R>(pieces: seq<Piece<R>>, extents: seq<Extent>, n: nat): (w: int)
    requires n <= |pieces| == |extents|
  {
    if n == 0 then 0 else Left(pieces, extents, n - 1) + Rest(pieces[n - 1], extents[n - 1])
  }

  lemma {:induction false} LeftShrinks<R>(pieces: seq<Piece<R>>, extents: seq<Extent>, p: nat, e: Extent, n: nat)
    requires n <= |pieces| == |extents| && p < |pieces|
    ensures Left(pieces, extents[p := e], n)
            == Left(pieces, extents, n) - (if p < n then Rest(pieces[p], extents[p]) - Rest(pieces[p], e) else 0)
    decreases n
  {
    if n == 0 {
    } else {
      LeftShrinks(pieces, extents, p, e, n - 1);
    }
  }

  lemma {:induction false} LeftNonNegative<R>(pieces: seq<Piece<R>>, extents: seq<Extent>, n: nat)
    requires n <= |pieces| == |extents| && forall p :: 0 <= p < n ==> Rest(pieces[p], extents[p]) >= 0
    ensures Left(pieces, extents, n) >= 0
    decreases n
  {
    if n == 0 {
    } else {
      LeftNonNegative(pieces, extents, n - 1);
    }
  }

  function Weight(phase: Phase): (w: nat)
  {
    match phase
    case Waiting => 2
    case Running => 1
    case Done => 0
    case Failed => 0
  }

  function Weights(phases: seq<Phase>, n: nat): (w: nat)
    requires n <= |phases|
  {
    if n == 0 then 0 else Weights(phases, n - 1) + Weight(phases[n - 1])
  }

  lemma {:induction false} WeightsShrink(phases: seq<Phase>, t: nat, phase: Phase, n: nat)
    requires n <= |phases| && t < |phases|
    ensures Weights(phases[t := phase], n)
            == Weights(phases, n) - (if t < n then Weight(phases[t]) - Weight(phase) else 0)
    decreases n
  {
    if n == 0 {
    } else {
      WeightsShrink(phases, t, phase, n - 1);
    }
  }

  /** What the main thread has before it. */
  function Ahead<R>(job: Job<R>, mode: Mode, s: State<R>): (w: int)
  {
    Total(job, mode) - s.submitted + |job.items| - s.item
    + match s.main
      case Priming => 3
      case Strings => 2
      case Joining => 1
      case _ => 0
  }

  ghost function Work<R>(job: Job<R>, mode: Mode, s: State<R>): (w: int)
    requires Sized(job, mode, s)
  {
    Left(job.Pieces(), s.extents, |job.Pieces()|) + Weights(s.phases, |s.phases|) + Ahead(job, mode, s)
  }

  lemma RestNonNegative<R>(job: Job<R>, mode: Mode, s: State<R>, p: nat)
    requires Sized(job, mode, s) && TasksTracked(job, mode, s) && ItemsTracked(job, mode, s) && p < |job.Pieces()|
    ensures Rest(job.Pieces()[p], s.extents[p]) >= 0
  {
    if p >= |job.tasks| {
      var i := p - |job.tasks|;
      assert job.Pieces()[p] == job.items[i] && ItemTracked(job, s, i);
    }
  }

  lemma WorkNonNegative<R>(job: Job<R>, mode: Mode, s: State<R>)
    requires Sized(job, mode, s) && Orderly(job, mode, s)
    ensures Work(job, mode, s) >= 0
  {
    forall p | 0 <= p < |job.Pieces()| ensures Rest(job.Pieces()[p], s.extents[p]) >= 0 {
      RestNonNegative(job, mode, s, p);
    }
    LeftNonNegative(job.Pieces(), s.extents, |job.Pieces()|);
  }

  lemma WriteShrinks<R>(job: Job<R>, mode: Mode, s: State<R>, a: Action)
    requires Sized(job, mode, s) && Enabled(job, mode, s, a) && (a.WriteItem? || a.WriteTask? || a.WriteDraft?)
    ensures Work(job, mode, After(job, mode, s, a)) == Work(job, mode, s) - a.n
  {
    var p := Writes(job, s, a);
    if a.WriteDraft? {
      WritesDraft(job, mode, s, a);
    } else {
      WritesPiece(job, mode, s, a);
    }
    LeftShrinks(job.Pieces(), s.extents, p, After(job, mode, s, a).extents[p], |job.Pieces()|);
  }

  /** Every action takes work away. */
  lemma WorkShrinks<R>(job: Job<R>, mode: Mode, s: State<R>, a: Action)
    requires Sized(job, mode, s) && Enabled(job, mode, s, a)
    ensures Work(job, mode, After(job, mode, s, a)) < Work(job, mode, s)
  {
    if a.WriteItem? || a.WriteTask? || a.WriteDraft? {
      WriteShrinks(job, mode, s, a);
    } else if a.Start? || a.EndTask? {
      PhaseShrinks(job, mode, s, a);
    } else {
      NothingWritten(job, mode, s, a);
      AheadShrinks(job, mode, s, a);
    }
  }

  lemma PhaseShrinks<R>(job: Job<R>, mode: Mode, s: State<R>, a: Action)
    requires Sized(job, mode, s) && Enabled(job, mode, s, a) && (a.Start? || a.EndTask?)
    ensures Work(job, mode, After(job, mode, s, a)) < Work(job, mode, s)
  {
    WeightsShrink(s.phases, a.t, After(job, mode, s, a).phases[a.t], |s.phases|);
  }

  lemma AheadShrinks<R>(job: Job<R>, mode: Mode, s: State<R>, a: Action)
    requires Sized(job, mode, s) && Enabled(job, mode, s, a)
    requires a.Submit? || a.BeginStrings? || a.EndItem? || a.BeginJoin? || a.Report?
    ensures Ahead(job, mode, After(job, mode, s, a)) < Ahead(job, mode, s) && After(job, mode, s, a).phases == s.phases
  {
  }

  /** No run is longer than the work there was. */
  lemma {:induction false} RunsAreBounded<R>(job: Job<R>, init: Grid<R>, mode: Mode, run: seq<Action>)
    requires mode.Valid(|job.tasks|) && Fits(job.Pieces(), init) && Apart(job.Pieces())
    requires Reached(job, init, mode, run).Some?
    ensures |run| + Work(job, mode, Reached(job, init, mode, run).value) <= Work(job, mode, Initial(job, init))
    ensures |run| <= Work(job, mode, Initial(job, init))
    decreases |run|
  {
    if run != [] {
      var r := run[..|run| - 1];
      RunsAreBounded(job, init, mode, r);
      WorkShrinks(job, mode, Reached(job, init, mode, r).value, run[|run| - 1]);
    }
    RunKeeps(job, init, mode, run);
    WorkNonNegative(job, mode, Reached(job, init, mode, run).value);
  }

  /** A task that is running can go on. */
  lemma TaskGoesOn<R>(job: Job<R>, mode: Mode, s: State<R>, t: nat) returns (a: Action)
    requires Sized(job, mode, s) && Orderly(job, mode, s)
    requires t < |job.tasks| && (s.phases[t] == Running || MayStart(mode, s, t))
    ensures Enabled(job, mode, s, a)
  {
    a := if s.phases[t] != Running then Start(t)
         else if s.extents[t].written == job.tasks[t].Limit() then EndTask(t)
         else WriteTask(t, 1);
  }

  /** So can a text item. */
  lemma ItemGoesOn<R>(job: Job<R>, mode: Mode, s: State<R>) returns (a: Action)
    requires Sized(job, mode, s) && Orderly(job, mode, s) && s.main == Strings && s.item < |job.items|
    ensures Enabled(job, mode, s, a)
  {
    var e, q := ItemExtent(job, s), job.items[s.item];
    assert ItemTracked(job, s, s.item);
    a := if e.drafted < |q.draft| then WriteDraft(1) else if e.written < q.Limit() then WriteItem(1) else EndItem;
  }

  /** Until the end, something can always be done. */
  lemma NotStuck<R>(job: Job<R>, mode: Mode, s: State<R>) returns (a: Action)
    requires Sized(job, mode, s) && Orderly(job, mode, s) && !Ended(s)
    ensures Enabled(job, mode, s, a)
  {
    match s.main
    case Priming =>
      if Settled(mode, s) {
        a := if s.submitted < Primed(job, mode) then Submit else BeginStrings;
      } else if Stopped(mode, s) {
        a := Report;
      } else {
        a := TaskGoesOn(job, mode, s, s.submitted - 1);
      }
    case Strings =>
      if s.item == |job.items| {
        a := BeginJoin;
      } else {
        a := ItemGoesOn(job, mode, s);
      }
    case Joining =>
      if s.submitted < Total(job, mode) {
        a := Submit;
      } else if Quiet(mode, s) {
        a := Report;
      } else {
        var t :| 0 <= t < |s.phases| && (s.phases[t] == Running || MayStart(mode, s, t));
        a := TaskGoesOn(job, mode, s, t);
      }
  }

  lemma RunGoesOn<R>(job: Job<R>, init: Grid<R>, mode: Mode, run: seq<Action>) returns (next: seq<Action>)
    requires mode.Valid(|job.tasks|) && Fits(job.Pieces(), init) && Reached(job, init, mode, run).Some?
    requires var s := Reached(job, init, mode, run).value; Orderly(job, mode, s) && !Ended(s)
    ensures run <= next && |next| == |run| + 1 && Reached(job, init, mode, next).Some?
  {
    var a := NotStuck(job, mode, Reached(job, init, mode, run).value);
    next := run + [a];
    assert next[..|next| - 1] == run;
  }

  /** Every run can be carried to its end, and then the end is the verdict. */
  lemma RunsEnd<R>(job: Job<R>, init: Grid<R>, mode: Mode, run: seq<Action>) returns (run': seq<Action>)
    requires mode.Valid(|job.tasks|) && Fits(job.Pieces(), init) && Apart(job.Pieces())
    requires Reached(job, init, mode, run).Some?
    ensures run <= run' && Reached(job, init, mode, run').Some?
    ensures Ended(Reached(job, init, mode, run').value)
    ensures Reached(job, init, mode, run').value.main == Verdict(job, mode)
    decreases Work(job, mode, Initial(job, init)) - |run|
  {
    RunKeeps(job, init, mode, run);
    RunsAreBounded(job, init, mode, run);
    var s := Reached(job, init, mode, run).value;
    if Ended(s) {
      EndIsVerdict(job, init, mode, run);
      run' := run;
    } else {
      var next := RunGoesOn(job, init, mode, run);
      RunsAreBounded(job, init, mode, next);
      run' := RunsEnd(job, init, mode, next);
    }
  }
}
