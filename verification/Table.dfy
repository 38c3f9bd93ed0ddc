/** Collecting a selection of columns of both kinds, sequentially: placed values and text. */
module Table {
  import opened Bytes
  import opened Options
  import opened Columns
  import opened StringCache
  import opened Frame
  import opened Collect
  import opened Dictionary

  // ---- columns of both kinds ----

  /** Values put down by a rule, by a worker or on the main thread; or text, always on the main thread. */
  datatype Kind<!T, !R> = Placed(rule: Rule<T, R>, onMain: bool) | Text
  {
    predicate NeedsMainThread()
    {
      Text? || onMain
    }
  }

  /** A stored chunk of either kind; text with the places of its values in memory. */
  datatype Stored<T> = Numbers(chunk: Chunk<T>) | Words(text: TextChunk, layout: Layout)

  /** An element of a result vector of either kind. */
  datatype Slot<R> = Number(v: R) | Word(cell: Cell)

  ghost predicate Suits<T, R>(kind: Kind<T, R>, st: Stored<T>)
  {
    match kind
    case Placed(_, _) => st.Numbers? && st.chunk.Valid()
    case Text => st.Words? && st.text.Valid() && LaidOut(st.layout, Materialized(st.text).rows)
  }

  /** The first `n` rows, or all of them. */
  function Taken<T>(rows: Rows<T>, n: nat): (r: Rows<T>)
  {
    if n <= |rows| then rows[..n] else rows
  }

  /** A chunk of `n` expected rows can be collected: its pages decode, and text is text. */
  ghost predicate Succeeds<T, R>(kind: Kind<T, R>, st: Stored<T>, n: nat)
    requires Suits(kind, st)
  {
    if kind.Placed? then st.chunk.Readable(n) else Collects(st.text, n)
  }

  function Numbered<R>(cells: seq<R>): (s: seq<Slot<R>>)
    ensures |s| == |cells|
  {
    seq(|cells|, i requires 0 <= i < |cells| => Number(cells[i]))
  }

  function Worded<R>(cells: seq<Cell>): (s: seq<Slot<R>>)
    ensures |s| == |cells|
  {
    seq(|cells|, i requires 0 <= i < |cells| => Word(cells[i]))
  }

  /** What collecting a chunk of `n` rows puts into the result. */
  ghost function Got<T, R>(kind: Kind<T, R>, st: Stored<T>, n: nat): (s: seq<Slot<R>>)
    requires Suits(kind, st)
  {
    if kind.Placed? then Numbered(Cells(kind.rule, Taken(st.chunk.rows, n)))
    else Worded(TextCells(Taken(Materialized(st.text).rows, n)))
  }

  /** Some value of the chunk is lost; text is kept or refused. */
  ghost predicate LosesSome<T, R>(kind: Kind<T, R>, st: Stored<T>, n: nat)
    requires Suits(kind, st)
  {
    kind.Placed? && Loses(kind.rule, Taken(st.chunk.rows, n))
  }

  lemma GotSize<T, R>(kind: Kind<T, R>, st: Stored<T>, n: nat)
    requires Suits(kind, st) && Succeeds(kind, st, n)
    ensures |Got(kind, st, n)| == n
  {
    if kind.Text? {
      CollectsHasRows(st.text, n);
    }
  }

  /** The array of a column has at least `n` elements. */
  ghost predicate LongEnough<T, R>(kind: Kind<T, R>, num: array<R>, word: array<Cell>, n: nat)
  {
    n <= if kind.Text? then word.Length else num.Length
  }

  /** A result vector starts with the elements `s`. */
  ghost predicate Starts<T, R>(kind: Kind<T, R>, num: array<R>, word: array<Cell>, s: seq<Slot<R>>)
    reads num, word
  {
    LongEnough(kind, num, word, |s|) && s == if kind.Text? then Worded(word[..|s|]) else Numbered(num[..|s|])
  }

  /** One chunk of either kind into its vector, behind what it starts with. */
  method CollectStored<T, R>(kind: Kind<T, R>, st: Stored<T>, hash: nat -> nat, rows: nat, batchSize: nat,
                             num: array<R>, word: array<Cell>, offset: nat, ghost s: seq<Slot<R>>)
    returns (ok: bool, lost: bool)
    requires Suits(kind, st) && batchSize >= 1 && (forall k :: hash(k) < CACHE_SIZE)
    requires |s| == offset && Starts(kind, num, word, s) && LongEnough(kind, num, word, offset + rows)
    modifies if kind.Text? then {word as object} else {num as object}
    ensures ok <==> Succeeds(kind, st, rows)
    ensures ok ==> Starts(kind, num, word, s + Got(kind, st, rows))
    ensures ok ==> (lost <==> LosesSome(kind, st, rows))
  {
    match kind
    case Placed(rule, _) =>
      ok, lost := CollectChunk(st.chunk, rule, rows, batchSize, num, offset);
      if ok {
        assert num[..offset + rows] == num[..offset] + num[offset..offset + rows];
        assert num[..offset] == old(num[..offset]);
      }
    case Text =>
      lost := false;
      ok := CollectText(st.text, st.layout, hash, rows, batchSize, word, offset);
      if ok {
        assert word[..offset + rows] == word[..offset] + word[offset..offset + rows];
        assert word[..offset] == old(word[..offset]);
      }
  }

  // ---- all columns ----

  type Table<T> = seq<seq<Stored<T>>>

  /** Every group has a chunk of its kind for every column. */
  ghost predicate ValidTable<T, R>(file: Table<T>, kinds: seq<Kind<T, R>>)
  {
    forall g :: 0 <= g < |file| ==> |file[g]| == |kinds| && forall c :: 0 <= c < |kinds| ==> Suits(kinds[c], file[g][c])
  }

  predicate PlanFits<T>(file: Table<T>, plan: seq<GroupPlan>)
  {
    forall k :: 0 <= k < |plan| ==> plan[k].index < |file|
  }

  /** Column `c` of group `k` of the plan can be collected. */
  ghost predicate SucceedsAt<T, R>(file: Table<T>, kinds: seq<Kind<T, R>>, plan: seq<GroupPlan>, k: nat, c: nat)
    requires ValidTable(file, kinds) && PlanFits(file, plan) && k < |plan| && c < |kinds|
  {
    Succeeds(kinds[c], file[plan[k].index][c], plan[k].rows)
  }

  ghost predicate AllSucceed<T, R>(file: Table<T>, kinds: seq<Kind<T, R>>, plan: seq<GroupPlan>)
    requires ValidTable(file, kinds) && PlanFits(file, plan)
  {
    forall k, c :: 0 <= k < |plan| && 0 <= c < |kinds| ==> SucceedsAt(file, kinds, plan, k, c)
  }

  ghost predicate SucceedUpTo<T, R>(file: Table<T>, kinds: seq<Kind<T, R>>, plan: seq<GroupPlan>, n: nat)
    requires ValidTable(file, kinds) && PlanFits(file, plan) && n <= |plan|
  {
    forall k, c :: 0 <= k < n && 0 <= c < |kinds| ==> SucceedsAt(file, kinds, plan, k, c)
  }

  /** Column `c` of the first `n` planned groups, as it is to be collected. */
  ghost function GotColumn<T, R>(file: Table<T>, kinds: seq<Kind<T, R>>, plan: seq<GroupPlan>, c: nat,
                                 n: nat): (s: seq<Slot<R>>)
    requires ValidTable(file, kinds) && PlanFits(file, plan) && c < |kinds| && n <= |plan|
  {
    if n == 0 then []
    else GotColumn(file, kinds, plan, c, n - 1) + Got(kinds[c], file[plan[n - 1].index][c], plan[n - 1].rows)
  }

  /** Some value of column `c` of the first `n` planned groups is lost. */
  ghost predicate LosesColumn<T, R>(file: Table<T>, kinds: seq<Kind<T, R>>, plan: seq<GroupPlan>, c: nat, n: nat)
    requires ValidTable(file, kinds) && PlanFits(file, plan) && c < |kinds| && n <= |plan|
  {
    exists k :: 0 <= k < n && LosesSome(kinds[c], file[plan[k].index][c], plan[k].rows)
  }

  /** The array that a column is collected into. */
  ghost function Own<T, R>(kind: Kind<T, R>, num: array<R>, word: array<Cell>): (o: object)
  {
    if kind.Text? then word as object else num as object
  }

  ghost predicate Separate<T, R>(kinds: seq<Kind<T, R>>, nums: seq<array<R>>, words: seq<array<Cell>>)
    requires |nums| == |words| == |kinds|
  {
    forall i, j :: 0 <= i < j < |kinds| ==> Own(kinds[i], nums[i], words[i]) != Own(kinds[j], nums[j], words[j])
  }

  /** Every vector starts with its `hold`. */
  ghost predicate AllStart<T, R>(kinds: seq<Kind<T, R>>, nums: seq<array<R>>, words: seq<array<Cell>>,
                                 hold: seq<seq<Slot<R>>>)
    requires |kinds| == |nums| == |words| == |hold|
    reads nums, words
  {
    forall c :: 0 <= c < |kinds| ==> Starts(kinds[c], nums[c], words[c], hold[c])
  }

  /** One chunk into column `i`; the other columns stay as they are. */
  method CollectColumn<T, R>(st: Stored<T>, kinds: seq<Kind<T, R>>, hash: nat -> nat, rows: nat, batchSize: nat,
                             nums: seq<array<R>>, words: seq<array<Cell>>, offset: nat, i: nat,
                             ghost hold: seq<seq<Slot<R>>>)
    returns (ok: bool, lost: bool)
    requires i < |kinds| == |nums| == |words| == |hold| && Separate(kinds, nums, words) && Suits(kinds[i], st)
    requires batchSize >= 1 && (forall k :: hash(k) < CACHE_SIZE)
    requires AllStart(kinds, nums, words, hold) && |hold[i]| == offset
    requires LongEnough(kinds[i], nums[i], words[i], offset + rows)
    modifies nums, words
    ensures ok <==> Succeeds(kinds[i], st, rows)
    ensures ok ==> AllStart(kinds, nums, words, hold[i := hold[i] + Got(kinds[i], st, rows)])
    ensures ok ==> (lost <==> LosesSome(kinds[i], st, rows))
  {
    ok, lost := CollectStored(kinds[i], st, hash, rows, batchSize, nums[i], words[i], offset, hold[i]);
    forall c | 0 <= c < |kinds| && c != i ensures Starts(kinds[c], nums[c], words[c], hold[c]) {
      assert Own(kinds[c], nums[c], words[c]) != Own(kinds[i], nums[i], words[i]);
      assert old(Starts(kinds[c], nums[c], words[c], hold[c]));
    }
  }

  /** One row group into every column at its offset. */
  method CollectGroup<T, R>(group: seq<Stored<T>>, kinds: seq<Kind<T, R>>, hash: nat -> nat, rows: nat, batchSize: nat,
                            nums: seq<array<R>>, words: seq<array<Cell>>, offset: nat, flags: seq<bool>,
                            ghost hold: seq<seq<Slot<R>>>)
    returns (ok: bool, flags': seq<bool>, ghost hold': seq<seq<Slot<R>>>)
    requires |group| == |kinds| == |nums| == |words| == |flags| == |hold| && Separate(kinds, nums, words)
    requires batchSize >= 1 && (forall k :: hash(k) < CACHE_SIZE)
    requires forall c :: 0 <= c < |kinds| ==> Suits(kinds[c], group[c]) && |hold[c]| == offset
    requires forall c :: 0 <= c < |kinds| ==> LongEnough(kinds[c], nums[c], words[c], offset + rows)
    requires AllStart(kinds, nums, words, hold)
    modifies nums, words
    ensures |flags'| == |flags| && |hold'| == |hold|
    ensures ok <==> forall c :: 0 <= c < |kinds| ==> Succeeds(kinds[c], group[c], rows)
    ensures ok ==> AllStart(kinds, nums, words, hold')
    ensures ok ==> forall c :: 0 <= c < |kinds| ==> hold'[c] == hold[c] + Got(kinds[c], group[c], rows)
    ensures ok ==> forall c :: 0 <= c < |kinds| ==> (flags'[c] <==> flags[c] || LosesSome(kinds[c], group[c], rows))
  {
    flags', hold' := flags, hold;
    for i := 0 to |kinds|
      invariant |flags'| == |flags| && |hold'| == |hold| && AllStart(kinds, nums, words, hold')
      invariant forall c :: 0 <= c < i ==> Succeeds(kinds[c], group[c], rows)
      invariant forall c :: 0 <= c < i ==> hold'[c] == hold[c] + Got(kinds[c], group[c], rows)
      invariant forall c :: 0 <= c < i ==> (flags'[c] <==> flags[c] || LosesSome(kinds[c], group[c], rows))
      invariant forall c :: i <= c < |kinds| ==> flags'[c] == flags[c] && hold'[c] == hold[c]
    {
      var lost;
      ok, lost := CollectColumn(group[i], kinds, hash, rows, batchSize, nums, words, offset, i, hold');
      if !ok {
        return;
      }
      flags' := flags'[i := flags'[i] || lost];
      hold' := hold'[i := hold'[i] + Got(kinds[i], group[i], rows)];
    }
    ok := true;
  }

  /** The columns of the first `n` planned groups, as they are to be collected. */
  ghost function GotColumns<T, R>(file: Table<T>, kinds: seq<Kind<T, R>>, plan: seq<GroupPlan>, n: nat)
    : (s: seq<seq<Slot<R>>>)
    requires ValidTable(file, kinds) && PlanFits(file, plan) && n <= |plan|
    ensures |s| == |kinds|
  {
    seq(|kinds|, c requires 0 <= c < |kinds| => GotColumn(file, kinds, plan, c, n))
  }

  /** The flags tell whether a value of the first `n` planned groups was lost. */
  ghost predicate Flagged<T, R>(file: Table<T>, kinds: seq<Kind<T, R>>, plan: seq<GroupPlan>, n: nat, flags: seq<bool>)
    requires ValidTable(file, kinds) && PlanFits(file, plan) && n <= |plan| && |flags| == |kinds|
  {
    forall c :: 0 <= c < |kinds| ==> (flags[c] <==> LosesColumn(file, kinds, plan, c, n))
  }

  lemma LosesNext<T, R>(file: Table<T>, kinds: seq<Kind<T, R>>, plan: seq<GroupPlan>, c: nat, n: nat)
    requires ValidTable(file, kinds) && PlanFits(file, plan) && c < |kinds| && n < |plan|
    ensures LosesColumn(file, kinds, plan, c, n + 1) <==>
              LosesColumn(file, kinds, plan, c, n) || LosesSome(kinds[c], file[plan[n].index][c], plan[n].rows)
  {
  }

  lemma SucceedNext<T, R>(file: Table<T>, kinds: seq<Kind<T, R>>, plan: seq<GroupPlan>, n: nat)
    requires ValidTable(file, kinds) && PlanFits(file, plan) && n < |plan|
    ensures SucceedUpTo(file, kinds, plan, n + 1) <==>
              SucceedUpTo(file, kinds, plan, n) && forall c :: 0 <= c < |kinds| ==> SucceedsAt(file, kinds, plan, n, c)
  {
  }

  lemma GotNext<T, R>(file: Table<T>, kinds: seq<Kind<T, R>>, plan: seq<GroupPlan>, c: nat, n: nat)
    requires ValidTable(file, kinds) && PlanFits(file, plan) && c < |kinds| && n < |plan|
    requires SucceedsAt(file, kinds, plan, n, c)
    ensures |GotColumn(file, kinds, plan, c, n + 1)| == |GotColumn(file, kinds, plan, c, n)| + plan[n].rows
  {
    GotSize(kinds[c], file[plan[n].index][c], plan[n].rows);
  }

  /** As long as every chunk can be collected, the columns are as long as the planned groups. */
  lemma {:induction false} GotColumnSize<T, R>(file: Table<T>, kinds: seq<Kind<T, R>>, plan: seq<GroupPlan>, c: nat,
                                               n: nat)
    requires ValidTable(file, kinds) && PlanFits(file, plan) && Tiles(plan) && c < |kinds| && n <= |plan|
    requires SucceedUpTo(file, kinds, plan, n)
    ensures |GotColumn(file, kinds, plan, c, n)| == StartOf(plan, n)
    decreases n
  {
    if n == 0 {
      FirstStart(plan);
    } else {
      SucceedNext(file, kinds, plan, n - 1);
      GotColumnSize(file, kinds, plan, c, n - 1);
      NextStart(plan, n - 1);
      GotNext(file, kinds, plan, c, n - 1);
    }
  }

  /** The vectors hold the first `n` planned groups. */
  ghost predicate Holds<T, R>(file: Table<T>, kinds: seq<Kind<T, R>>, plan: seq<GroupPlan>, n: nat,
                              nums: seq<array<R>>, words: seq<array<Cell>>)
    requires |kinds| == |nums| == |words| && ValidTable(file, kinds) && PlanFits(file, plan) && n <= |plan|
    reads nums, words
  {
    AllStart(kinds, nums, words, GotColumns(file, kinds, plan, n))
  }

  lemma RoomForGroup<T, R>(file: Table<T>, kinds: seq<Kind<T, R>>, plan: seq<GroupPlan>, n: nat,
                           nums: seq<array<R>>, words: seq<array<Cell>>)
    requires |kinds| == |nums| == |words| && ValidTable(file, kinds) && PlanFits(file, plan) && Tiles(plan)
    requires n < |plan| && SucceedUpTo(file, kinds, plan, n)
    requires forall c :: 0 <= c < |kinds| ==> LongEnough(kinds[c], nums[c], words[c], PlanEnd(plan))
    ensures forall c :: 0 <= c < |kinds| ==> |GotColumns(file, kinds, plan, n)[c]| == plan[n].offset
    ensures forall c :: 0 <= c < |kinds| ==>
              LongEnough(kinds[c], nums[c], words[c], plan[n].offset + plan[n].rows)
  {
    NextStart(plan, n);
    forall c | 0 <= c < |kinds| ensures |GotColumns(file, kinds, plan, n)[c]| == plan[n].offset {
      GotColumnSize(file, kinds, plan, c, n);
    }
  }

  lemma GroupAdded<T, R>(file: Table<T>, kinds: seq<Kind<T, R>>, plan: seq<GroupPlan>, n: nat,
                         hold: seq<seq<Slot<R>>>)
    requires ValidTable(file, kinds) && PlanFits(file, plan) && n < |plan| && |hold| == |kinds|
    requires forall c :: 0 <= c < |kinds| ==>
               hold[c] == GotColumns(file, kinds, plan, n)[c] + Got(kinds[c], file[plan[n].index][c], plan[n].rows)
    ensures hold == GotColumns(file, kinds, plan, n + 1)
  {
  }

  lemma FlagsAdded<T, R>(file: Table<T>, kinds: seq<Kind<T, R>>, plan: seq<GroupPlan>, n: nat, flags: seq<bool>,
                         flags': seq<bool>)
    requires ValidTable(file, kinds) && PlanFits(file, plan) && n < |plan| && |flags| == |flags'| == |kinds|
    requires Flagged(file, kinds, plan, n, flags)
    requires forall c :: 0 <= c < |kinds| ==>
               (flags'[c] <==> flags[c] || LosesSome(kinds[c], file[plan[n].index][c], plan[n].rows))
    ensures Flagged(file, kinds, plan, n + 1, flags')
  {
    forall c | 0 <= c < |kinds| ensures flags'[c] <==> LosesColumn(file, kinds, plan, c, n + 1) {
      LosesNext(file, kinds, plan, c, n);
    }
  }

  /** The next planned group. */
  method CollectNext<T, R>(file: Table<T>, kinds: seq<Kind<T, R>>, hash: nat -> nat, plan: seq<GroupPlan>, n: nat,
                           batchSize: nat, nums: seq<array<R>>, words: seq<array<Cell>>, flags: seq<bool>)
    returns (ok: bool, flags': seq<bool>)
    requires |kinds| == |nums| == |words| == |flags| && ValidTable(file, kinds) && PlanFits(file, plan) && Tiles(plan)
    requires n < |plan| && Separate(kinds, nums, words) && batchSize >= 1 && (forall k :: hash(k) < CACHE_SIZE)
    requires forall c :: 0 <= c < |kinds| ==> LongEnough(kinds[c], nums[c], words[c], PlanEnd(plan))
    requires Holds(file, kinds, plan, n, nums, words) && Flagged(file, kinds, plan, n, flags)
    requires SucceedUpTo(file, kinds, plan, n)
    modifies nums, words
    ensures |flags'| == |flags|
    ensures ok <==> SucceedUpTo(file, kinds, plan, n + 1)
    ensures ok ==> Holds(file, kinds, plan, n + 1, nums, words) && Flagged(file, kinds, plan, n + 1, flags')
  {
    RoomForGroup(file, kinds, plan, n, nums, words);
    ghost var hold;
    ok, flags', hold := CollectGroup(file[plan[n].index], kinds, hash, plan[n].rows, batchSize, nums, words,
                                     plan[n].offset, flags, GotColumns(file, kinds, plan, n));
    SucceedNext(file, kinds, plan, n);
    assert forall c :: 0 <= c < |kinds| ==>
      SucceedsAt(file, kinds, plan, n, c) == Succeeds(kinds[c], file[plan[n].index][c], plan[n].rows);
    if ok {
      GroupAdded(file, kinds, plan, n, hold);
      FlagsAdded(file, kinds, plan, n, flags, flags');
    }
  }

  /**
   * A sequential collect: fails exactly when some selected chunk cannot be collected; otherwise every
   * vector holds its column of the selection, and its flag tells whether a value was lost.
   */
  method CollectTable<T, R>(file: Table<T>, kinds: seq<Kind<T, R>>, hash: nat -> nat, plan: seq<GroupPlan>,
                            batchSize: nat, nums: seq<array<R>>, words: seq<array<Cell>>)
    returns (ok: bool, flags: seq<bool>)
    requires |kinds| == |nums| == |words| && ValidTable(file, kinds) && PlanFits(file, plan) && Tiles(plan)
    requires Separate(kinds, nums, words) && batchSize >= 1 && (forall k :: hash(k) < CACHE_SIZE)
    requires forall c :: 0 <= c < |kinds| ==> LongEnough(kinds[c], nums[c], words[c], PlanEnd(plan))
    modifies nums, words
    ensures |flags| == |kinds|
    ensures ok <==> AllSucceed(file, kinds, plan)
    ensures ok ==> Holds(file, kinds, plan, |plan|, nums, words)
    ensures ok ==> forall c :: 0 <= c < |kinds| ==> |GotColumn(file, kinds, plan, c, |plan|)| == PlanEnd(plan)
    ensures ok ==> Flagged(file, kinds, plan, |plan|, flags)
  {
    flags := seq(|kinds|, _ => false);
    for s := 0 to |plan|
      invariant |flags| == |kinds| && SucceedUpTo(file, kinds, plan, s)
      invariant Holds(file, kinds, plan, s, nums, words) && Flagged(file, kinds, plan, s, flags)
    {
      ok, flags := CollectNext(file, kinds, hash, plan, s, batchSize, nums, words, flags);
      if !ok {
        return;
      }
    }
    forall c | 0 <= c < |kinds| ensures |GotColumn(file, kinds, plan, c, |plan|)| == PlanEnd(plan) {
      GotColumnSize(file, kinds, plan, c, |plan|);
    }
    ok := true;
  }

  // ---- a column of placed values ----

  /** The planned parts of a column of placed values. */
  ghost function PlacedParts<T, R>(file: Table<T>, kinds: seq<Kind<T, R>>, plan: seq<GroupPlan>,
                                   c: nat): (parts: seq<Rows<T>>)
    requires ValidTable(file, kinds) && PlanFits(file, plan) && c < |kinds| && kinds[c].Placed?
    ensures |parts| == |plan|
  {
    seq(|plan|, k requires 0 <= k < |plan| =>
          assert Suits(kinds[c], file[plan[k].index][c]); Taken(file[plan[k].index][c].chunk.rows, plan[k].rows))
  }

  /** The rows of the selection in column `c`. */
  ghost function SelectedRows<T, R>(file: Table<T>, kinds: seq<Kind<T, R>>, plan: seq<GroupPlan>,
                                    c: nat): (rows: Rows<T>)
    requires ValidTable(file, kinds) && PlanFits(file, plan) && c < |kinds| && kinds[c].Placed?
  {
    Joined(PlacedParts(file, kinds, plan, c))
  }

  /** The column that is collected is the cells of those rows, and it loses what they lose. */
  lemma PlacedColumn<T, R>(file: Table<T>, kinds: seq<Kind<T, R>>, plan: seq<GroupPlan>, c: nat)
    requires ValidTable(file, kinds) && PlanFits(file, plan) && c < |kinds| && kinds[c].Placed?
    ensures var rows := SelectedRows(file, kinds, plan, c);
            && GotColumn(file, kinds, plan, c, |plan|) == Numbered(Cells(kinds[c].rule, rows))
            && (LosesColumn(file, kinds, plan, c, |plan|) <==> Loses(kinds[c].rule, rows))
  {
    var parts := PlacedParts(file, kinds, plan, c);
    assert parts[..|plan|] == parts;
    PlacedPrefix(file, kinds, plan, c, |plan|);
  }

  lemma {:induction false} PlacedPrefix<T, R>(file: Table<T>, kinds: seq<Kind<T, R>>, plan: seq<GroupPlan>, c: nat,
                                              n: nat)
    requires ValidTable(file, kinds) && PlanFits(file, plan) && c < |kinds| && kinds[c].Placed? && n <= |plan|
    ensures var rows := Joined(PlacedParts(file, kinds, plan, c)[..n]);
            && GotColumn(file, kinds, plan, c, n) == Numbered(Cells(kinds[c].rule, rows))
            && (LosesColumn(file, kinds, plan, c, n) <==> Loses(kinds[c].rule, rows))
    decreases n
  {
    if n == 0 {
    } else {
      PlacedPrefix(file, kinds, plan, c, n - 1);
      LosesNext(file, kinds, plan, c, n - 1);
      JoinedNext(kinds[c].rule, PlacedParts(file, kinds, plan, c), n);
    }
  }

  lemma JoinedNext<T, R>(rule: Rule<T, R>, parts: seq<Rows<T>>, n: nat)
    requires 0 < n <= |parts|
    ensures var a, b, ab := Joined(parts[..n - 1]), parts[n - 1], Joined(parts[..n]);
            && Numbered(Cells(rule, ab)) == Numbered(Cells(rule, a)) + Numbered(Cells(rule, b))
            && (Loses(rule, ab) <==> Loses(rule, a) || Loses(rule, b))
  {
    SliceOfSlice(parts, n, n - 1);
    CellsConcat(rule, Joined(parts[..n - 1]), parts[n - 1]);
  }

  function PlacedKinds<T, R>(rules: seq<Rule<T, R>>): (kinds: seq<Kind<T, R>>)
    ensures |kinds| == |rules|
  {
    seq(|rules|, c requires 0 <= c < |rules| => Placed(rules[c], false))
  }

  /** Columns of placed values only. */
  method CollectPlaced<T, R>(file: Table<T>, rules: seq<Rule<T, R>>, plan: seq<GroupPlan>, batchSize: nat,
                             dst: seq<array<R>>)
    returns (ok: bool, flags: seq<bool>)
    requires |rules| == |dst| && ValidTable(file, PlacedKinds(rules)) && PlanFits(file, plan) && Tiles(plan)
             && batchSize >= 1
    requires forall i, j :: 0 <= i < j < |dst| ==> dst[i] != dst[j]
    requires forall c :: 0 <= c < |dst| ==> dst[c].Length == PlanEnd(plan)
    modifies dst
    ensures ok <==> AllSucceed(file, PlacedKinds(rules), plan)
    ensures |flags| == |rules|
    ensures ok ==> forall c :: 0 <= c < |dst| ==>
              var rows := SelectedRows(file, PlacedKinds(rules), plan, c);
              dst[c][..] == Cells(rules[c], rows) && (flags[c] <==> Loses(rules[c], rows))
  {
    var none := new Cell[0];
    var kinds, words := PlacedKinds(rules), seq(|dst|, _ => none);
    ok, flags := CollectTable(file, kinds, _ => 0, plan, batchSize, dst, words);
    if ok {
      forall c | 0 <= c < |dst|
        ensures var rows := SelectedRows(file, kinds, plan, c);
                dst[c][..] == Cells(rules[c], rows) && (flags[c] <==> Loses(rules[c], rows))
      {
        assert Starts(kinds[c], dst[c], words[c], GotColumns(file, kinds, plan, |plan|)[c]);
        PlacedColumn(file, kinds, plan, c);
        NumberedSame(dst[c][..PlanEnd(plan)], Cells(rules[c], SelectedRows(file, kinds, plan, c)));
        assert dst[c][..] == dst[c][..PlanEnd(plan)];
      }
    }
  }

  lemma NumberedSame<R>(a: seq<R>, b: seq<R>)
    requires Numbered(a) == Numbered(b)
    ensures a == b
  {
    assert |a| == |Numbered(a)|;
    forall i | 0 <= i < |a| ensures a[i] == b[i] {
      assert Numbered(a)[i] == Numbered(b)[i];
    }
  }

  // ---- writing, then collecting ----

  /** The chunks of a file just written: every page decodes. */
  function TableOf<T>(file: File<T>, nullable: seq<bool>): (s: Table<T>)
    requires forall g :: 0 <= g < |file| ==> |file[g]| == |nullable|
  {
    seq(|file|, g requires 0 <= g < |file| =>
          seq(|nullable|, c requires 0 <= c < |nullable| => Numbers(Chunk(file[g][c], nullable[c], None))))
  }

  /** Every chunk of the file can be stored as it is. */
  lemma ChunkSuits<T>(x: seq<Rows<T>>, nrow: nat, nullable: seq<bool>, size: nat, file: File<T>, g: nat, c: nat)
    requires size >= 1 && |nullable| == |x| && c < |x| && g < |file|
    requires forall d :: 0 <= d < |x| ==> |x[d]| == nrow && Storable(x[d], nullable[d])
    requires HoldsFrame(file, x, nrow, size)
    ensures |file[g]| == |x| && Storable(file[g][c], nullable[c])
  {
    StorableSlice(x[c], nullable[c], g * size, GroupEnd(nrow, size, g));
  }

  /** Every planned group has its rows. */
  lemma ChunkRows<T>(x: seq<Rows<T>>, nrow: nat, size: nat, file: File<T>, p: GroupPlan, c: nat)
    requires size >= 1 && c < |x| && (forall d :: 0 <= d < |x| ==> |x[d]| == nrow) && HoldsFrame(file, x, nrow, size)
    requires p.index < |file| && p.rows == FooterRows(nrow, size)[p.index]
    ensures |file[p.index]| == |x| && |file[p.index][c]| == p.rows
  {
    GroupsTile(nrow, size, p.index);
  }

  lemma TableValid<T, R>(x: seq<Rows<T>>, nrow: nat, nullable: seq<bool>, size: nat, file: File<T>,
                         rules: seq<Rule<T, R>>, plan: seq<GroupPlan>)
    requires size >= 1 && |nullable| == |x| == |rules|
    requires forall d :: 0 <= d < |x| ==> |x[d]| == nrow && Storable(x[d], nullable[d])
    requires HoldsFrame(file, x, nrow, size)
    requires Agrees(plan, FooterRows(nrow, size), AllOf(|file|), |file|)
    ensures ValidTable(TableOf(file, nullable), PlacedKinds(rules)) && PlanFits(TableOf(file, nullable), plan)
    ensures AllSucceed(TableOf(file, nullable), PlacedKinds(rules), plan)
  {
    var table, kinds := TableOf(file, nullable), PlacedKinds(rules);
    forall g, c | 0 <= g < |table| && 0 <= c < |kinds| ensures Suits(kinds[c], table[g][c]) {
      ChunkSuits(x, nrow, nullable, size, file, g, c);
    }
    forall k, c | 0 <= k < |plan| && 0 <= c < |kinds| ensures SucceedsAt(table, kinds, plan, k, c) {
      ChunkRows(x, nrow, size, file, plan[k], c);
    }
  }

  /** The rows selected from a file just written are the frame's. */
  lemma SelectedIsFrame<T, R>(x: seq<Rows<T>>, nrow: nat, nullable: seq<bool>, size: nat, file: File<T>,
                              rules: seq<Rule<T, R>>, plan: seq<GroupPlan>, c: nat)
    requires size >= 1 && |nullable| == |x| == |rules| && c < |x|
    requires forall d :: 0 <= d < |x| ==> |x[d]| == nrow && Storable(x[d], nullable[d])
    requires HoldsFrame(file, x, nrow, size)
    requires Tiles(plan) && Agrees(plan, FooterRows(nrow, size), AllOf(|file|), |file|) && PlanEnd(plan) == nrow
    requires ValidTable(TableOf(file, nullable), PlacedKinds(rules)) && PlanFits(TableOf(file, nullable), plan)
    ensures SelectedRows(TableOf(file, nullable), PlacedKinds(rules), plan, c) == x[c]
  {
    var parts := PlacedParts(TableOf(file, nullable), PlacedKinds(rules), plan, c);
    forall k | 0 <= k < |plan|
      ensures plan[k].offset + plan[k].rows <= nrow && parts[k] == x[c][plan[k].offset..plan[k].offset + plan[k].rows]
    {
      PlannedSlice(x, nrow, size, file, plan[k], c);
      assert parts[k] == file[plan[k].index][c][..plan[k].rows];
    }
    AllSlicesJoined(parts, plan, x[c]);
  }

  lemma AllSlicesJoined<T>(parts: seq<Rows<T>>, plan: seq<GroupPlan>, y: Rows<T>)
    requires |parts| == |plan| && Tiles(plan) && PlanEnd(plan) == |y|
    requires forall k :: 0 <= k < |plan| ==>
               plan[k].offset + plan[k].rows <= |y| && parts[k] == y[plan[k].offset..plan[k].offset + plan[k].rows]
    ensures Joined(parts) == y
  {
    JoinedSlices(parts, plan, y, |plan|);
    assert parts[..|plan|] == parts && y[..|y|] == y;
  }

  /**
   * Write, then collect: for every frame, row-group size and batch size, every vector gets every row
   * of its column in place, and is flagged exactly when its rule lost a value.
   */
  method WriteThenCollect<T(0), R>(x: seq<Rows<T>>, nrow: nat, nullable: seq<bool>, rowGroupRows: nat, batchSize: nat,
                                   rules: seq<Rule<T, R>>, dst: seq<array<R>>)
    returns (ok: bool, flags: seq<bool>)
    requires |nullable| == |x| == |rules| == |dst| && batchSize >= 1
    requires forall i, j :: 0 <= i < j < |dst| ==> dst[i] != dst[j]
    requires forall c :: 0 <= c < |x| ==> |x[c]| == nrow && dst[c].Length == nrow
    modifies dst
    ensures ok <==> forall c :: 0 <= c < |x| ==> Storable(x[c], nullable[c])
    ensures ok ==> |flags| == |x| && forall c :: 0 <= c < |x| ==>
              dst[c][..] == Cells(rules[c], x[c]) && (flags[c] <==> Loses(rules[c], x[c]))
  {
    flags := [];
    var file;
    ok, file := WriteFrame(x, nrow, nullable, rowGroupRows);
    if !ok {
      return;
    }
    var size := GroupRows(nrow, rowGroupRows);
    FooterCount(nrow, size, |file|);
    var plan;
    ok, plan := PlanGroups(FooterRows(nrow, size), AllOf(|file|), nrow);
    TableValid(x, nrow, nullable, size, file, rules, plan);
    ok, flags := CollectPlaced(TableOf(file, nullable), rules, plan, batchSize, dst);
    forall c | 0 <= c < |x| ensures SelectedRows(TableOf(file, nullable), PlacedKinds(rules), plan, c) == x[c] {
      SelectedIsFrame(x, nrow, nullable, size, file, rules, plan, c);
    }
  }
}
