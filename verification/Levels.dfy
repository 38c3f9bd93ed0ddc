/** The dense layout of a Parquet column: present values only, placed by definition levels. */
module Levels {
  import opened Options

  /** Definition levels of a batch; a REQUIRED column has none. */
  type DefLevels = Option<seq<int>>

  predicate Present(defs: DefLevels, maxDef: int, i: nat)
    requires defs.Some? ==> i < |defs.value|
  {
    defs.None? || defs.value[i] == maxDef
  }

  /** How many of the first `i` rows are present: the cursor `j` into the dense values. */
  function Rank(defs: DefLevels, maxDef: int, i: nat): (j: nat)
    requires defs.Some? ==> i <= |defs.value|
    ensures j <= i
  {
    if i == 0 then 0 else Rank(defs, maxDef, i - 1) + (if Present(defs, maxDef, i - 1) then 1 else 0)
  }

  lemma {:induction false} RankMonotone(defs: DefLevels, maxDef: int, i: nat, j: nat)
    requires i <= j && (defs.Some? ==> j <= |defs.value|)
    ensures Rank(defs, maxDef, i) <= Rank(defs, maxDef, j)
  {
    if i == j {
    } else {
      RankMonotone(defs, maxDef, i, j - 1);
    }
  }

  /** The rows before `i` whose level is the maximum; all of them, if there are no levels. */
  ghost function PresentBefore(defs: DefLevels, maxDef: int, i: nat): (s: set<nat>)
    requires defs.Some? ==> i <= |defs.value|
  {
    set k: nat | k < i && (defs.None? || defs.value[k] == maxDef)
  }

  lemma {:induction false} RankCounts(defs: DefLevels, maxDef: int, i: nat)
    requires defs.Some? ==> i <= |defs.value|
    ensures Rank(defs, maxDef, i) == |PresentBefore(defs, maxDef, i)|
  {
    if i == 0 {
    } else {
      RankCounts(defs, maxDef, i - 1);
      var before := PresentBefore(defs, maxDef, i - 1);
      assert PresentBefore(defs, maxDef, i) == if Present(defs, maxDef, i - 1) then before + {i - 1} else before;
    }
  }

  /** A row is null exactly if its level is below the maximum; else its value is the next dense one. */
  lemma RowMeans<T>(batch: Batch<T>, i: nat)
    requires batch.Valid() && i < batch.length
    ensures batch.Row(i).None? <==> batch.defs.Some? && batch.defs.value[i] != batch.maxDef
    ensures batch.Row(i).Some? ==>
              var j := |PresentBefore(batch.defs, batch.maxDef, i)|;
              j < |batch.values| && batch.Row(i).value == batch.values[j]
  {
    RankCounts(batch.defs, batch.maxDef, i);
    RankMonotone(batch.defs, batch.maxDef, i + 1, batch.length);
  }

  /** A batch as carquet hands it over: `length` rows, and a dense value for each present one. */
  datatype Batch<T> = Batch(values: seq<T>, defs: DefLevels, maxDef: int, length: nat)
  {
    predicate Valid()
    {
      && (defs.Some? ==> |defs.value| == length)
      && |values| >= Rank(defs, maxDef, length)
    }

    /** The logical row `i`: its value, or null. */
    function Row(i: nat): (r: Option<T>)
      requires Valid() && i < length
    {
      RankMonotone(defs, maxDef, i + 1, length);
      if Present(defs, maxDef, i) then Some(values[Rank(defs, maxDef, i)]) else None
    }

    function Rows(): (s: seq<Option<T>>)
      requires Valid()
      ensures |s| == length
    {
      seq(length, i requires 0 <= i < length => Row(i))
    }
  }
}
