/** Dealing tasks out to lanes, one private reader each. */
module Lanes {
  import opened Bytes
  import opened Schedule

  /** Round robin: tasks `l`, `l + k`, `l + 2k`, ... make up lane `l` of `k`. */
  function LaneOf(t: nat, k: nat): (l: nat)
    requires k >= 1
    ensures l < k && l <= t
  {
    if t < k then t else LaneOf(t - k, k)
  }

  /** The place of task `t` in its lane. */
  function PlaceOf(t: nat, k: nat): (j: nat)
    requires k >= 1
  {
    if t < k then 0 else 1 + PlaceOf(t - k, k)
  }

  lemma {:induction false} SameLaneGap(t: nat, u: nat, k: nat)
    requires k >= 1 && u < t && LaneOf(t, k) == LaneOf(u, k)
    ensures u + k <= t
    decreases t
  {
    if u < k {
    } else {
      SameLaneGap(t - k, u - k, k);
    }
  }

  /** A stretch of `slots`. */
  datatype Lane = Lane(first: nat, count: nat)

  /** Task `u` is dealt out before the turn of task `t` of lane `lane`. */
  predicate Earlier(u: nat, k: nat, lane: nat, t: nat)
    requires k >= 1
  {
    LaneOf(u, k) < lane || (LaneOf(u, k) == lane && u < t)
  }

  /** How many of the first `n` tasks those are. */
  function CountEarlier(n: nat, k: nat, lane: nat, t: nat): (m: nat)
    requires k >= 1
    ensures m <= n
  {
    if n == 0 then 0 else CountEarlier(n - 1, k, lane, t) + (if Earlier(n - 1, k, lane, t) then 1 else 0)
  }

  lemma {:induction false} CountSame(n: nat, k: nat, lane: nat, t: nat, lane': nat, t': nat)
    requires k >= 1 && forall u: nat :: u < n ==> Earlier(u, k, lane, t) == Earlier(u, k, lane', t')
    ensures CountEarlier(n, k, lane, t) == CountEarlier(n, k, lane', t')
  {
    if n == 0 {
    } else {
      CountSame(n - 1, k, lane, t, lane', t');
    }
  }

  lemma {:induction false} CountAll(n: nat, k: nat)
    requires k >= 1
    ensures CountEarlier(n, k, 0, 0) == 0 && CountEarlier(n, k, k, 0) == n
  {
    if n == 0 {
    } else {
      CountAll(n - 1, k);
    }
  }

  /** The task itself is the only one dealt out until the next turn of its lane. */
  lemma {:induction false} CountNext(n: nat, k: nat, lane: nat, t: nat)
    requires k >= 1 && LaneOf(t, k) == lane
    ensures CountEarlier(n, k, lane, t + k) == CountEarlier(n, k, lane, t) + (if t < n then 1 else 0)
    decreases n
  {
    if n == 0 {
    } else {
      CountNext(n - 1, k, lane, t);
      if n - 1 > t && LaneOf(n - 1, k) == lane {
        SameLaneGap(n - 1, t, k);
      }
    }
  }

  /** The tasks from `t` on, `k` apart. */
  function Every(t: nat, k: nat, n: nat): (lane: seq<nat>)
    requires k >= 1
    decreases n - t
  {
    if t >= n then [] else [t] + Every(t + k, k, n)
  }

  /** The first `l` lanes, one after the other. */
  function Dealing(l: nat, k: nat, n: nat): (slots: seq<nat>)
    requires k >= 1
  {
    if l == 0 then [] else Dealing(l - 1, k, n) + Every(l - 1, k, n)
  }

  /** The stretches of the slots that the first `l` lanes take up. */
  function Stretches(l: nat, k: nat, n: nat): (lanes: seq<Lane>)
    requires k >= 1
    ensures |lanes| == l
  {
    if l == 0 then [] else Stretches(l - 1, k, n) + [Lane(|Dealing(l - 1, k, n)|, |Every(l - 1, k, n)|)]
  }

  /** Every entry of a lane belongs there, at its place. */
  lemma {:induction false} EveryAt(t: nat, k: nat, n: nat, j: nat)
    requires k >= 1 && j < |Every(t, k, n)|
    ensures var u := Every(t, k, n)[j]; t <= u < n && LaneOf(u, k) == LaneOf(t, k) && PlaceOf(u, k) == PlaceOf(t, k) + j
    decreases j
  {
    if j == 0 {
    } else {
      EveryAt(t + k, k, n, j - 1);
    }
  }

  /** Every task is in its lane, at its place. */
  lemma {:induction false} EveryHas(t: nat, k: nat, n: nat, u: nat)
    requires k >= 1 && t <= u < n && LaneOf(t, k) == LaneOf(u, k)
    ensures PlaceOf(t, k) <= PlaceOf(u, k) < PlaceOf(t, k) + |Every(t, k, n)|
    ensures Every(t, k, n)[PlaceOf(u, k) - PlaceOf(t, k)] == u
    decreases u - t
  {
    if t == u {
    } else {
      SameLaneGap(u, t, k);
      EveryHas(t + k, k, n, u);
    }
  }

  lemma {:induction false} EverySize(t: nat, k: nat, n: nat)
    requires k >= 1
    ensures CountEarlier(n, k, LaneOf(t, k), t) + |Every(t, k, n)| == CountEarlier(n, k, LaneOf(t, k) + 1, 0)
    decreases n - t
  {
    var lane := LaneOf(t, k);
    if t < n {
      EverySize(t + k, k, n);
      CountNext(n, k, lane, t);
    } else {
      CountSame(n, k, lane, t, lane + 1, 0);
    }
  }

  /** The lanes together have as many tasks as there are: there is a slot for each. */
  lemma {:induction false} DealingSize(l: nat, k: nat, n: nat)
    requires k >= 1 && l <= k
    ensures |Dealing(l, k, n)| == CountEarlier(n, k, l, 0) <= n
    ensures l == k ==> |Dealing(l, k, n)| == n
    decreases l
  {
    CountAll(n, k);
    if l == 0 {
    } else {
      DealingSize(l - 1, k, n);
      CountSame(n, k, l - 1, l - 1, l - 1, 0);
      EverySize(l - 1, k, n);
    }
  }

  // ---- which reader each task gets ----

  /** Lane `lane` has handed its reader to its tasks before `t`. */
  function Handed(readers: seq<nat>, lane: nat, k: nat, t: nat): (s: seq<nat>)
    requires k >= 1
    ensures |s| == |readers|
  {
    seq(|readers|, u requires 0 <= u < |readers| => if LaneOf(u, k) == lane && u < t then lane else readers[u])
  }

  lemma HandedNext(readers: seq<nat>, lane: nat, k: nat, t: nat)
    requires k >= 1 && t < |readers| && LaneOf(t, k) == lane
    ensures Handed(readers, lane, k, t)[t := lane] == Handed(readers, lane, k, t + k)
  {
    forall u | 0 <= u < |readers| && u != t && LaneOf(u, k) == lane ensures u < t <==> u < t + k {
      if u > t {
        SameLaneGap(u, t, k);
      }
    }
  }

  /** The readers once the first `l` lanes are dealt out. */
  function Readers(l: nat, k: nat, n: nat): (s: seq<nat>)
    requires k >= 1
    ensures |s| == n
  {
    seq(n, u requires 0 <= u => if LaneOf(u, k) < l then LaneOf(u, k) else 0)
  }

  /** One lane: its tasks go into the next slots and get its reader. */
  method FillLane(slots: array<nat>, reader: array<nat>, at: nat, lane: nat, k: nat) returns (count: nat)
    requires lane < k && slots != reader && slots.Length == reader.Length
             && at + |Every(lane, k, slots.Length)| <= slots.Length
    modifies slots, reader
    ensures count == |Every(lane, k, slots.Length)| && slots[at..at + count] == Every(lane, k, slots.Length)
    ensures slots[..at] == old(slots[..at])
    ensures reader[..] == Handed(old(reader[..]), lane, k, slots.Length)
  {
    var n := slots.Length;
    var t := lane;
    count := 0;
    assert reader[..] == Handed(reader[..], lane, k, lane);
    while t < n
      invariant LaneOf(t, k) == lane && count + |Every(t, k, n)| == |Every(lane, k, n)|
      invariant slots[at..at + count] + Every(t, k, n) == Every(lane, k, n) && slots[..at] == old(slots[..at])
      invariant reader[..] == Handed(old(reader[..]), lane, k, t)
      decreases n + k - t
    {
      ConcatAssociates(slots[at..at + count], [t], Every(t + k, k, n));
      HandedNext(old(reader[..]), lane, k, t);
      Append(slots, at, count, t);
      SetReader(reader, t, lane);
      count := count + 1;
      t := t + k;
    }
    HandedAll(old(reader[..]), lane, k, t);
  }

  method SetReader(reader: array<nat>, t: nat, lane: nat)
    requires t < reader.Length
    modifies reader
    ensures reader[..] == old(reader[..])[t := lane]
  {
    reader[t] := lane;
  }

  lemma HandedAll(readers: seq<nat>, lane: nat, k: nat, t: nat)
    requires k >= 1 && t >= |readers|
    ensures Handed(readers, lane, k, t) == Handed(readers, lane, k, |readers|)
  {
  }

  /** The lanes as lists of tasks. */
  function Lists(slots: seq<nat>, lanes: seq<Lane>): (lists: seq<seq<nat>>)
    requires forall l :: 0 <= l < |lanes| ==> lanes[l].first + lanes[l].count <= |slots|
    ensures |lists| == |lanes|
  {
    seq(|lanes|, l requires 0 <= l < |lanes| => slots[lanes[l].first..lanes[l].first + lanes[l].count])
  }

  lemma {:induction false} StretchAt(m: nat, k: nat, n: nat, l: nat)
    requires k >= 1 && l < m
    ensures Stretches(m, k, n)[l] == Lane(|Dealing(l, k, n)|, |Every(l, k, n)|)
    decreases m
  {
    if l < m - 1 {
      StretchAt(m - 1, k, n, l);
    }
  }

  lemma {:induction false} DealingPrefix(m: nat, k: nat, n: nat, l: nat)
    requires k >= 1 && l <= m
    ensures Dealing(l, k, n) <= Dealing(m, k, n)
    decreases m
  {
    if l == m {
    } else {
      DealingPrefix(m - 1, k, n, l);
    }
  }

  lemma SliceOfPrefix(a: seq<nat>, b: seq<nat>, d: seq<nat>)
    requires a + b <= d
    ensures |a| + |b| <= |d| && d[|a|..|a| + |b|] == b
  {
  }

  /** Stretch `l` of the slots is lane `l`. */
  lemma StretchIsLane(m: nat, k: nat, n: nat, l: nat)
    requires k >= 1 && l < m
    ensures var lane := Stretches(m, k, n)[l];
            && lane.first + lane.count <= |Dealing(m, k, n)|
            && Dealing(m, k, n)[lane.first..lane.first + lane.count] == Every(l, k, n)
  {
    StretchAt(m, k, n, l);
    DealingPrefix(m, k, n, l + 1);
    SliceOfPrefix(Dealing(l, k, n), Every(l, k, n), Dealing(m, k, n));
  }

  /** Round robin over `k` lanes. */
  function RoundRobin(k: nat, n: nat): (mode: Mode)
    requires k >= 1
  {
    Schedule.Lanes(seq(k, l requires 0 <= l => Every(l, k, n)), Readers(k, k, n),
      seq(n, t requires 0 <= t => PlaceOf(t, k)))
  }

  /** It puts every task into one lane, once, in ascending order. */
  lemma RoundRobinValid(k: nat, n: nat)
    requires k >= 1
    ensures RoundRobin(k, n).Valid(n)
  {
    var mode := RoundRobin(k, n);
    forall t | 0 <= t < n
      ensures mode.reader[t] < k && mode.place[t] < |mode.lanes[mode.reader[t]]|
              && mode.lanes[mode.reader[t]][mode.place[t]] == t
      ensures mode.place[t] > 0 ==> mode.lanes[mode.reader[t]][mode.place[t] - 1] < t
    {
      var l := LaneOf(t, k);
      LaneOfLane(l, k);
      EveryHas(l, k, n, t);
      if mode.place[t] > 0 {
        EveryAscends(l, k, n, mode.place[t]);
      }
    }
    forall l, j | 0 <= l < k && 0 <= j < |mode.lanes[l]|
      ensures mode.lanes[l][j] < n && mode.reader[mode.lanes[l][j]] == l && mode.place[mode.lanes[l][j]] == j
    {
      LaneOfLane(l, k);
      EveryAt(l, k, n, j);
    }
  }

  lemma LaneOfLane(l: nat, k: nat)
    requires l < k
    ensures LaneOf(l, k) == l && PlaceOf(l, k) == 0
  {
  }

  lemma {:induction false} EveryAscends(t: nat, k: nat, n: nat, j: nat)
    requires k >= 1 && 0 < j < |Every(t, k, n)|
    ensures Every(t, k, n)[j - 1] < Every(t, k, n)[j]
    decreases j
  {
    if j > 1 {
      EveryAscends(t + k, k, n, j - 1);
    }
  }

  /** The lanes built so far. */
  ghost predicate Built(slots: array<nat>, reader: array<nat>, at: nat, lanes: seq<Lane>, l: nat, k: nat)
    requires k >= 1
    reads slots, reader
  {
    && slots.Length == reader.Length && slots != reader && at <= slots.Length
    && slots[..at] == Dealing(l, k, slots.Length) && lanes == Stretches(l, k, slots.Length)
    && reader[..] == Readers(l, k, slots.Length)
  }

  method AddLane(slots: array<nat>, reader: array<nat>, at: nat, lanes: seq<Lane>, lane: nat, k: nat)
    returns (at': nat, lanes': seq<Lane>)
    requires lane < k && Built(slots, reader, at, lanes, lane, k)
    modifies slots, reader
    ensures Built(slots, reader, at', lanes', lane + 1, k)
  {
    DealingSize(lane + 1, k, slots.Length);
    var count := FillLane(slots, reader, at, lane, k);
    at', lanes' := at + count, lanes + [Lane(at, count)];
    assert slots[..at'] == slots[..at] + slots[at..at'];
    assert Handed(Readers(lane, k, slots.Length), lane, k, slots.Length) == Readers(lane + 1, k, slots.Length);
  }

  lemma {:induction false} LaneIsRemainder(t: nat, k: nat)
    requires k >= 1
    ensures t == k * PlaceOf(t, k) + LaneOf(t, k)
    decreases t
  {
    if t < k {
    } else {
      LaneIsRemainder(t - k, k);
      OneMore(k, PlaceOf(t - k, k));
    }
  }

  lemma OneMore(k: nat, j: nat)
    ensures k * (1 + j) == k + k * j
  {
  }

  /** Lane and place of a task are the remainder and the quotient of its number by that of the lanes. */
  lemma RoundRobinMeans(k: nat, n: nat, t: nat)
    requires k >= 1 && t < n
    ensures RoundRobin(k, n).reader[t] < k && t == k * RoundRobin(k, n).place[t] + RoundRobin(k, n).reader[t]
  {
    LaneIsRemainder(t, k);
  }

  lemma StretchesAreLanes(k: nat, n: nat)
    requires k >= 1
    ensures var slots, lanes := Dealing(k, k, n), Stretches(k, k, n);
            && |lanes| == k && (forall l :: 0 <= l < k ==> lanes[l].first + lanes[l].count <= |slots|)
            && Lists(slots, lanes) == RoundRobin(k, n).lanes
  {
    forall l | 0 <= l < k
      ensures var lane := Stretches(k, k, n)[l];
              && lane.first + lane.count <= |Dealing(k, k, n)|
              && Dealing(k, k, n)[lane.first..lane.first + lane.count] == Every(l, k, n)
    {
      StretchIsLane(k, k, n, l);
    }
  }

  /**
   * `lanes`, `slots` and the readers of the tasks: the lanes fill the slots exactly, and with the readers
   * they are the round robin.
   */
  method BuildLanes(n: nat, k: nat) returns (slots: array<nat>, lanes: seq<Lane>, reader: array<nat>)
    requires k >= 1
    ensures fresh(slots) && fresh(reader) && slots.Length == n == reader.Length && |lanes| == k
    ensures forall l :: 0 <= l < k ==> lanes[l].first + lanes[l].count <= n
    ensures Lists(slots[..], lanes) == RoundRobin(k, n).lanes && reader[..] == RoundRobin(k, n).reader
    ensures RoundRobin(k, n).Valid(n)
  {
    slots := new nat[n];
    reader := new nat[n](_ => 0);
    lanes := [];
    var at: nat := 0;
    assert reader[..] == Readers(0, k, n);
    for lane := 0 to k
      invariant fresh(slots) && fresh(reader) && slots.Length == n && Built(slots, reader, at, lanes, lane, k)
    {
      at, lanes := AddLane(slots, reader, at, lanes, lane, k);
    }
    DealingSize(k, k, n);
    assert slots[..at] == slots[..];
    StretchesAreLanes(k, n);
    RoundRobinValid(k, n);
  }
}
