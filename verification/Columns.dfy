/** Placing the values of a column into an R vector: the two read paths and the 64-bit rules. */
module Columns {
  import opened Bytes
  import opened Levels
  import opened Options
  import BitUnpack

  // ---- 64-bit integers in R doubles ----

  const INT64_MIN: int := -0x8000_0000_0000_0000
  const INT32_MIN: int := -0x8000_0000
  const TWO64: int := 0x1_0000_0000_0000_0000
  const DOUBLE_EXACT_MAX: int := 0x20_0000_0000_0000

  lemma Powers()
    ensures Pow2(31) == 0x8000_0000 && Pow2(53) == 0x20_0000_0000_0000
    ensures Pow2(63) == 0x8000_0000_0000_0000 && Pow2(64) == 0x1_0000_0000_0000_0000
  {
    assert Pow2(15) == 0x8000 && Pow2(16) == 0x1_0000 && Pow2(21) == 0x20_0000;
    BitUnpack.Pow2Add(16, 15);
    BitUnpack.Pow2Add(16, 16);
    BitUnpack.Pow2Add(32, 21);
    BitUnpack.Pow2Add(32, 31);
    BitUnpack.Pow2Add(32, 32);
  }

  /** The limits of the signed 32- and 64-bit numbers. */
  lemma Limits()
    ensures -INT32_MIN == Pow2(31) && -INT64_MIN == Pow2(63) && TWO64 == Pow2(64)
  {
    Powers();
  }

  /** `m * 2^e`, with 53 bits for `m`, is a whole number that a double holds. */
  ghost predicate HeldAs(v: int, m: int, e: nat)
  {
    -(Pow2(53) as int) < m < Pow2(53) && v == m * Pow2(e)
  }

  ghost predicate HeldByDouble(v: int)
  {
    exists m: int, e: nat :: HeldAs(v, m, e)
  }

  lemma SmallIsHeld(v: int)
    requires -DOUBLE_EXACT_MAX <= v <= DOUBLE_EXACT_MAX
    ensures HeldByDouble(v)
  {
    Powers();
    if v == DOUBLE_EXACT_MAX {
      assert HeldAs(v, 1, 53);
    } else if v == -DOUBLE_EXACT_MAX {
      assert HeldAs(v, -1, 53);
    } else {
      assert Pow2(0) == 1;
      assert HeldAs(v, v, 0);
    }
  }

  lemma EvenMultiple(m: int, p: int)
    ensures m * (2 * p) == 2 * (m * p)
  {
  }

  lemma NextIsNotHeld()
    ensures !HeldByDouble(DOUBLE_EXACT_MAX + 1)
  {
    Powers();
    if HeldByDouble(DOUBLE_EXACT_MAX + 1) {
      var m: int, e: nat :| HeldAs(DOUBLE_EXACT_MAX + 1, m, e);
      if e > 0 {
        EvenMultiple(m, Pow2(e - 1));
      }
    }
  }

  /** The exact range of a double: the largest below which it holds every whole number. */
  lemma ExactRange(limit: int)
    ensures limit <= DOUBLE_EXACT_MAX <==> forall v :: -limit <= v <= limit ==> HeldByDouble(v)
  {
    if limit <= DOUBLE_EXACT_MAX {
      forall v | -limit <= v <= limit ensures HeldByDouble(v) {
        SmallIsHeld(v);
      }
    } else {
      NextIsNotHeld();
    }
  }

  datatype Int64Mode = AsDouble | AsBit64

  /** An R double: the missing value, a whole number held exactly, or raw bits kept for bit64. */
  datatype Real = NaReal | Whole(v: int) | Bits(raw: int)

  /** The number a stored 64-bit payload stands for. */
  function Meant(raw: int, isUnsigned: bool): (v: int)
  {
    if isUnsigned && raw < 0 then raw + TWO64 else raw
  }

  lemma RepresentableMeans(v: int)
    ensures Representable(v, AsDouble) <==> -(Pow2(53) as int) <= v <= Pow2(53)
    ensures Representable(v, AsBit64) <==> -(Pow2(63) as int) < v < Pow2(63)
  {
    Powers();
  }

  /** The signed reading of the eight bytes of a payload, in two's complement. */
  function Signed(b: seq<byte>): (raw: int)
    requires |b| == 8
  {
    if b[7] < 128 then LE(b) else LE(b) - Pow2(64)
  }

  /** A signed payload means its signed reading, and an unsigned one the number its bytes make up. */
  lemma MeantOfBytes(b: seq<byte>)
    requires |b| == 8
    ensures Meant(Signed(b), false) == Signed(b) && Meant(Signed(b), true) == LE(b)
    ensures INT64_MIN <= Signed(b) < -INT64_MIN
  {
    Powers();
    TopByte(b);
  }

  lemma TopByte(b: seq<byte>)
    requires |b| == 8
    ensures LE(b) < TWO64 && (LE(b) < -INT64_MIN <==> b[7] < 128)
  {
    var low, top := LE(b[..7]), b[7];
    LESplit(b, 7);
    LEBound(b[..7]);
    SevenBytes();
    assert b[7..] == [top] && LE([top]) == top;
    assert LE(b) == low + 0x100_0000_0000_0000 * (top as int);
  }

  lemma SevenBytes()
    ensures Pow256(7) == 0x100_0000_0000_0000
  {
    assert Pow256(4) == 0x1_0000_0000;
  }

  /** The numbers a destination can hold and tell from its missing value. */
  predicate Representable(v: int, mode: Int64Mode)
  {
    match mode
    case AsDouble => -DOUBLE_EXACT_MAX <= v <= DOUBLE_EXACT_MAX
    case AsBit64 => INT64_MIN < v < -INT64_MIN
  }

  function MissingInt64(mode: Int64Mode): (r: Real)
  {
    if mode == AsBit64 then Bits(INT64_MIN) else NaReal
  }

  /** What a cell reads as under a mode: a number, or missing. */
  function ReadInt64(r: Real, mode: Int64Mode): (v: Option<int>)
  {
    match r
    case NaReal => None
    case Whole(v) => Some(v)
    case Bits(raw) => if mode == AsBit64 && raw == INT64_MIN then None else Some(raw)
  }

  /** `qio_place_int64`: the cell, and whether the value was lost. */
  function PlaceInt64(raw: int, mode: Int64Mode, isUnsigned: bool): (r: (Real, bool))
  {
    if mode == AsBit64 then
      if isUnsigned && raw < 0 then (Bits(INT64_MIN), true)
      else if !isUnsigned && raw == INT64_MIN then (Bits(raw), true)
      else (Bits(raw), false)
    else if isUnsigned then
      var value := if raw < 0 then raw + TWO64 else raw;
      if value > DOUBLE_EXACT_MAX then (NaReal, true) else (Whole(value), false)
    else
      if raw < -DOUBLE_EXACT_MAX || raw > DOUBLE_EXACT_MAX then (NaReal, true) else (Whole(raw), false)
  }

  /** For every payload: missing and flagged exactly when unrepresentable, else exactly the number meant. */
  lemma PlaceInt64Exact(raw: int, mode: Int64Mode, isUnsigned: bool)
    requires INT64_MIN <= raw < -INT64_MIN
    ensures var (cell, lost) := PlaceInt64(raw, mode, isUnsigned);
            var v := Meant(raw, isUnsigned);
            && (lost <==> !Representable(v, mode))
            && ReadInt64(cell, mode) == (if lost then None else Some(v))
            && (lost ==> cell == MissingInt64(mode))
  {
  }

  /** A column's placement rule: a cell and a warning flag per value, and the missing cell. */
  datatype Rule<!T, !R> = Rule(place: T -> (R, bool), na: R)

  function Int64Rule(mode: Int64Mode, isUnsigned: bool): (rule: Rule<int, Real>)
  {
    Rule(raw => PlaceInt64(raw, mode, isUnsigned), MissingInt64(mode))
  }

  /** INT32 into an R integer: -2147483648 is R's missing value, so storing it is flagged. */
  function Int32Rule(): (rule: Rule<int, int>)
  {
    Rule(v => (v, v == INT32_MIN), INT32_MIN)
  }

  // ---- what a column of rows becomes ----

  function CellOf<T, R>(rule: Rule<T, R>, row: Option<T>): (r: R)
  {
    if row.Some? then rule.place(row.value).0 else rule.na
  }

  function Cells<T, R>(rule: Rule<T, R>, rows: seq<Option<T>>): (s: seq<R>)
    ensures |s| == |rows|
  {
    seq(|rows|, i requires 0 <= i < |rows| => CellOf(rule, rows[i]))
  }

  predicate LosesRow<T, R>(rule: Rule<T, R>, row: Option<T>)
  {
    row.Some? && rule.place(row.value).1
  }

  /** Some present value of the column could not be kept. */
  ghost predicate Loses<T, R>(rule: Rule<T, R>, rows: seq<Option<T>>)
  {
    exists i :: 0 <= i < |rows| && LosesRow(rule, rows[i])
  }

  lemma CellsConcat<T, R>(rule: Rule<T, R>, a: seq<Option<T>>, b: seq<Option<T>>)
    ensures Cells(rule, a + b) == Cells(rule, a) + Cells(rule, b)
    ensures Loses(rule, a + b) <==> Loses(rule, a) || Loses(rule, b)
  {
    assert forall i :: 0 <= i < |a| ==> (a + b)[i] == a[i];
    assert forall i :: 0 <= i < |b| ==> (a + b)[|a| + i] == b[i];
    if i :| 0 <= i < |a + b| && LosesRow(rule, (a + b)[i]) {
      if i >= |a| {
        assert LosesRow(rule, b[i - |a|]);
      } else {
        assert LosesRow(rule, a[i]);
      }
    }
  }

  // ---- the definition-level path ----

  /** `QIO_SCATTER_LOOP` and `qio_scatter_int64`: dense values to their rows, missing cells elsewhere. */
  method ScatterDense<T, R>(rule: Rule<T, R>, batch: Batch<T>, dst: array<R>, offset: nat) returns (any: bool)
    requires batch.Valid() && offset + batch.length <= dst.Length
    modifies dst
    ensures dst[offset..offset + batch.length] == Cells(rule, batch.Rows())
    ensures any <==> Loses(rule, batch.Rows())
    ensures forall k :: 0 <= k < offset || offset + batch.length <= k < dst.Length ==> dst[k] == old(dst[k])
  {
    ghost var rows := batch.Rows();
    any := false;
    var j := 0;
    for i := 0 to batch.length
      invariant j == Rank(batch.defs, batch.maxDef, i)
      invariant forall k :: 0 <= k < i ==> dst[offset + k] == CellOf(rule, rows[k])
      invariant any <==> exists k :: 0 <= k < i && LosesRow(rule, rows[k])
      invariant forall k :: 0 <= k < offset || offset + batch.length <= k < dst.Length ==> dst[k] == old(dst[k])
    {
      if Present(batch.defs, batch.maxDef, i) {
        RankMonotone(batch.defs, batch.maxDef, i + 1, batch.length);
        assert rows[i] == Some(batch.values[j]);
        var (cell, lost) := rule.place(batch.values[j]);
        dst[offset + i] := cell;
        any := any || lost;
        j := j + 1;
      } else {
        assert rows[i] == None;
        dst[offset + i] := rule.na;
      }
    }
  }

  /**
   * The INT32 branch, which looks for the sentinel afterwards, in the dense values and only as far
   * as they were used; a flag that is already set is left alone.
   */
  method ScatterInt32(batch: Batch<int>, dst: array<int>, offset: nat, sentinel: bool) returns (sentinel': bool)
    requires batch.Valid() && offset + batch.length <= dst.Length
    modifies dst
    ensures dst[offset..offset + batch.length] == Cells(Int32Rule(), batch.Rows())
    ensures sentinel' <==> sentinel || Loses(Int32Rule(), batch.Rows())
    ensures forall k :: 0 <= k < offset || offset + batch.length <= k < dst.Length ==> dst[k] == old(dst[k])
  {
    ghost var rule, rows := Int32Rule(), batch.Rows();
    var j := 0;
    for i := 0 to batch.length
      invariant j == Rank(batch.defs, batch.maxDef, i)
      invariant forall k :: 0 <= k < i ==> dst[offset + k] == CellOf(rule, rows[k])
      invariant forall k :: 0 <= k < offset || offset + batch.length <= k < dst.Length ==> dst[k] == old(dst[k])
    {
      if Present(batch.defs, batch.maxDef, i) {
        RankMonotone(batch.defs, batch.maxDef, i + 1, batch.length);
        assert rows[i] == Some(batch.values[j]);
        dst[offset + i] := batch.values[j];
        j := j + 1;
      } else {
        assert rows[i] == None;
        dst[offset + i] := INT32_MIN;
      }
    }
    sentinel' := sentinel;
    SentinelInDense(batch);
    if !sentinel {
      for i := 0 to j
        invariant !sentinel' && forall k :: 0 <= k < i ==> batch.values[k] != INT32_MIN
      {
        if batch.values[i] == INT32_MIN {
          sentinel' := true;
          break;
        }
      }
    }
  }

  /** Every dense value that was used belongs to a present row. */
  lemma {:induction false} RowOfDense<T>(batch: Batch<T>, n: nat, j: nat) returns (i: nat)
    requires batch.Valid() && n <= batch.length && j < Rank(batch.defs, batch.maxDef, n)
    ensures i < n && Present(batch.defs, batch.maxDef, i) && Rank(batch.defs, batch.maxDef, i) == j
    decreases n
  {
    if j < Rank(batch.defs, batch.maxDef, n - 1) {
      i := RowOfDense(batch, n - 1, j);
    } else {
      i := n - 1;
    }
  }

  lemma SentinelInDense(batch: Batch<int>)
    requires batch.Valid()
    ensures Loses(Int32Rule(), batch.Rows()) <==>
            exists j :: 0 <= j < Rank(batch.defs, batch.maxDef, batch.length) && batch.values[j] == INT32_MIN
  {
    var rule, rows := Int32Rule(), batch.Rows();
    if i :| 0 <= i < |rows| && LosesRow(rule, rows[i]) {
      RankMonotone(batch.defs, batch.maxDef, i + 1, batch.length);
      assert batch.values[Rank(batch.defs, batch.maxDef, i)] == INT32_MIN;
    }
    if j :| 0 <= j < Rank(batch.defs, batch.maxDef, batch.length) && batch.values[j] == INT32_MIN {
      var i := RowOfDense(batch, batch.length, j);
      assert LosesRow(rule, rows[i]);
    }
  }

  // ---- the bitmap path ----

  /** A batch of the batch reader: a value slot per row and a validity bitmap, or none. */
  datatype Aligned<T> = Aligned(data: seq<T>, bitmap: Option<seq<byte>>, length: nat)
  {
    predicate Valid()
    {
      |data| >= length && (bitmap.Some? ==> 8 * |bitmap.value| >= length)
    }

    /** `qio_value_present` */
    predicate ValuePresent(i: nat)
      requires Valid() && i < length
    {
      bitmap.None? || bitmap.value[i / 8] / Pow2(i % 8) % 2 == 1
    }

    function Rows(): (s: seq<Option<T>>)
      requires Valid()
      ensures |s| == length
    {
      seq(length, i requires 0 <= i < length => if ValuePresent(i) then Some(data[i]) else None)
    }
  }

  /** Bit `i` of a bitmap: the bytes make one number, the first byte lowest. */
  predicate BitSet(bitmap: seq<byte>, i: nat)
  {
    LE(bitmap) / Pow2(i) % 2 == 1
  }

  /** A row is present exactly if there is no bitmap or its bit is set. */
  lemma PresentIsBit<T>(batch: Aligned<T>, i: nat)
    requires batch.Valid() && i < batch.length
    ensures batch.ValuePresent(i) <==> batch.bitmap.None? || BitSet(batch.bitmap.value, i)
  {
    if batch.bitmap.Some? {
      var s := batch.bitmap.value;
      BitUnpack.BitsOfByte(s, i, 1);
      BitUnpack.ShrIsDivision(LE(s), i);
      BitUnpack.ShrIsDivision(s[i / 8], i % 8);
    }
  }

  /** Row `i` from the bits: its value under the rule, or the missing cell. */
  function BitCell<T, R>(rule: Rule<T, R>, batch: Aligned<T>, i: nat): (r: R)
    requires batch.Valid() && i < batch.length
  {
    if batch.bitmap.None? || BitSet(batch.bitmap.value, i) then rule.place(batch.data[i]).0 else rule.na
  }

  /** Row `i` from the bits is there and cannot be kept. */
  predicate BitLoses<T, R>(rule: Rule<T, R>, batch: Aligned<T>, i: nat)
    requires batch.Valid() && i < batch.length
  {
    (batch.bitmap.None? || BitSet(batch.bitmap.value, i)) && rule.place(batch.data[i]).1
  }

  /** The rows of a batch, read off its bitmap. */
  lemma RowsFromBits<T, R>(rule: Rule<T, R>, batch: Aligned<T>)
    requires batch.Valid()
    ensures forall i :: 0 <= i < batch.length ==> Cells(rule, batch.Rows())[i] == BitCell(rule, batch, i)
    ensures Loses(rule, batch.Rows()) <==> exists i :: 0 <= i < batch.length && BitLoses(rule, batch, i)
  {
    var rows := batch.Rows();
    forall i | 0 <= i < batch.length
      ensures CellOf(rule, rows[i]) == BitCell(rule, batch, i)
      ensures LosesRow(rule, rows[i]) == BitLoses(rule, batch, i)
    {
      PresentIsBit(batch, i);
    }
    if Loses(rule, rows) {
      var i :| 0 <= i < |rows| && LosesRow(rule, rows[i]);
      assert BitLoses(rule, batch, i);
    }
    if i :| 0 <= i < batch.length && BitLoses(rule, batch, i) {
      assert LosesRow(rule, rows[i]);
    }
  }

  /** `qio_copy_batch_column`, numeric kinds: row by row, under the same rule and the same flag. */
  method CopyBatchColumn<T, R>(rule: Rule<T, R>, batch: Aligned<T>, dst: array<R>, offset: nat, flag: bool)
    returns (flag': bool)
    requires batch.Valid() && offset + batch.length <= dst.Length
    modifies dst
    ensures dst[offset..offset + batch.length] == Cells(rule, batch.Rows())
    ensures flag' <==> flag || Loses(rule, batch.Rows())
    ensures forall i :: 0 <= i < batch.length ==> dst[offset..offset + batch.length][i] == BitCell(rule, batch, i)
    ensures flag' <==> flag || exists i :: 0 <= i < batch.length && BitLoses(rule, batch, i)
    ensures forall k :: 0 <= k < offset || offset + batch.length <= k < dst.Length ==> dst[k] == old(dst[k])
  {
    ghost var rows := batch.Rows();
    flag' := flag;
    for i := 0 to batch.length
      invariant forall k :: 0 <= k < i ==> dst[offset + k] == CellOf(rule, rows[k])
      invariant flag' <==> flag || exists k :: 0 <= k < i && LosesRow(rule, rows[k])
      invariant forall k :: 0 <= k < offset || offset + batch.length <= k < dst.Length ==> dst[k] == old(dst[k])
    {
      if !batch.ValuePresent(i) {
        assert rows[i] == None;
        dst[offset + i] := rule.na;
      } else {
        assert rows[i] == Some(batch.data[i]);
        var (cell, lost) := rule.place(batch.data[i]);
        dst[offset + i] := cell;
        if lost {
          flag' := true;
        }
      }
    }
    RowsFromBits(rule, batch);
  }

  /** The two paths agree on every column: same rows, same cells, same flag. */
  method BothPaths<T, R>(rule: Rule<T, R>, dense: Batch<T>, aligned: Aligned<T>, a: array<R>, b: array<R>)
    returns (lostA: bool, lostB: bool)
    requires dense.Valid() && aligned.Valid() && dense.Rows() == aligned.Rows()
    requires a != b && a.Length == b.Length == dense.length == aligned.length
    modifies a, b
    ensures a[..] == b[..] && lostA == lostB
  {
    lostA := ScatterDense(rule, dense, a, 0);
    lostB := CopyBatchColumn(rule, aligned, b, 0, false);
    assert a[..] == a[0..dense.length] && b[..] == b[0..dense.length];
  }
}
