/** Per-function aggregation: a latency histogram that loses no call, and a bounded table of
 *  return values kept by weighted Space-Saving. */
module Aggregation {

  const MAX_RETVALS := 64

  /** `retvalCount`. */
  datatype RetvalCount = RetvalCount(count: nat, weighted: nat, error: nat)

  type Table = map<string, RetvalCount>

  function Weight(w: nat): (r: nat)
    ensures r >= 1 && (w >= 1 ==> r == w)
  {
    if w == 0 then 1 else w
  }

  predicate IsMinimum(t: Table, m: string)
  {
    m in t && forall k <- t :: t[m].weighted <= t[k].weighted
  }

  function Replaced(t: Table, m: string, v: string, w: nat): Table
    requires m in t
  {
    (t - {m})[v := RetvalCount(1, t[m].weighted + w, t[m].weighted)]
  }

  /** One `recordRetval`; which of several smallest candidates goes is left open. */
  ghost predicate Step(t: Table, v: string, w: nat, t': Table)
  {
    if v in t then t' == t[v := RetvalCount(t[v].count + 1, t[v].weighted + w, t[v].error)]
    else if |t| < MAX_RETVALS then t' == t[v := RetvalCount(1, w, 0)]
    else exists m :: IsMinimum(t, m) && t' == Replaced(t, m, v, w)
  }

  // ---- the exact answer ----

  datatype Observation = Observation(value: string, weight: nat)

  function TotalWeight(s: seq<Observation>): nat
  {
    if s == [] then 0 else TotalWeight(s[..|s| - 1]) + s[|s| - 1].weight
  }

  function TrueWeight(s: seq<Observation>, v: string): nat
  {
    if s == [] then 0
    else
      var last := s[|s| - 1];
      TrueWeight(s[..|s| - 1], v) + (if last.value == v then last.weight else 0)
  }

  function TrueCount(s: seq<Observation>, v: string): nat
  {
    if s == [] then 0
    else TrueCount(s[..|s| - 1], v) + (if s[|s| - 1].value == v then 1 else 0)
  }

  ghost function SumWeighted(keys: set<string>, t: Table): nat
    requires keys <= t.Keys
  {
    if keys == {} then 0
    else
      var k :| k in keys;
      t[k].weighted + SumWeighted(keys - {k}, t)
  }

  /** A run: the tables after each observation, starting from the empty one. */
  ghost predicate Run(s: seq<Observation>, tables: seq<Table>)
  {
    && |tables| == |s| + 1
    && tables[0] == map[]
    && forall i | 0 <= i < |s| :: s[i].weight >= 1 && Step(tables[i], s[i].value, s[i].weight, tables[i + 1])
  }

  // ---- sums over a table ----

  lemma {:induction false} SumSplit(keys: set<string>, t: Table, k: string)
    requires keys <= t.Keys && k in keys
    ensures SumWeighted(keys, t) == t[k].weighted + SumWeighted(keys - {k}, t)
    decreases |keys|
  {
    var j :| j in keys && SumWeighted(keys, t) == t[j].weighted + SumWeighted(keys - {j}, t);
    if j != k {
      SumSplit(keys - {j}, t, k);
      SumSplit(keys - {k}, t, j);
      assert keys - {j} - {k} == keys - {k} - {j};
    }
  }

  lemma {:induction false} SumSame(keys: set<string>, t: Table, t': Table)
    requires keys <= t.Keys && keys <= t'.Keys
    requires forall k <- keys :: t[k].weighted == t'[k].weighted
    ensures SumWeighted(keys, t) == SumWeighted(keys, t')
    decreases |keys|
  {
    if keys != {} {
      var k :| k in keys;
      SumSplit(keys, t, k);
      SumSplit(keys, t', k);
      SumSame(keys - {k}, t, t');
    }
  }

  lemma OneMore(n: nat, m: nat)
    ensures (n + 1) * m == n * m + m
  {
  }

  lemma {:induction false} SumAtLeast(keys: set<string>, t: Table, m: nat)
    requires keys <= t.Keys && forall k <- keys :: m <= t[k].weighted
    ensures |keys| * m <= SumWeighted(keys, t)
    decreases |keys|
  {
    if keys != {} {
      var k :| k in keys;
      SumSplit(keys, t, k);
      SumAtLeast(keys - {k}, t, m);
      OneMore(|keys - {k}|, m);
    }
  }

  /** Setting one entry changes the sum by that entry. */
  lemma SumUpdate(t: Table, v: string, c: RetvalCount)
    ensures SumWeighted(t[v := c].Keys, t[v := c])
         == SumWeighted(t.Keys - {v}, t) + c.weighted
  {
    var t' := t[v := c];
    SumSplit(t'.Keys, t', v);
    assert t'.Keys - {v} == t.Keys - {v};
    SumSame(t.Keys - {v}, t, t');
  }

  // ---- the guarantee ----

  /** What one tracked value promises. */
  ghost predicate EntryBounds(s: seq<Observation>, v: string, c: RetvalCount)
  {
    && 1 <= c.weighted
    && c.weighted - c.error <= TrueWeight(s, v) <= c.weighted
    && c.count <= TrueCount(s, v)
    && (c.error == 0 ==> c.count == TrueCount(s, v) && c.weighted == TrueWeight(s, v))
  }

  ghost predicate SumRight(s: seq<Observation>, t: Table)
  {
    SumWeighted(t.Keys, t) == TotalWeight(s)
  }

  ghost predicate Bounded(s: seq<Observation>, t: Table)
  {
    forall v <- t :: EntryBounds(s, v, t[v])
  }

  /** Until the table is full nothing has been lost. */
  ghost predicate ExactUntilFull(s: seq<Observation>, t: Table)
  {
    |t| < MAX_RETVALS ==>
      && (forall v <- t :: t[v].error == 0)
      && forall v | v !in t :: TrueWeight(s, v) == 0 && TrueCount(s, v) == 0
  }

  ghost predicate ErrorsLow(t: Table)
  {
    forall v, k | v in t && k in t :: t[v].error <= t[k].weighted
  }

  ghost predicate UntrackedLow(s: seq<Observation>, t: Table)
  {
    forall v, k | v !in t && k in t :: TrueWeight(s, v) <= t[k].weighted
  }

  /** The invariant every run keeps. */
  ghost predicate Summary(s: seq<Observation>, t: Table)
  {
    |t| <= MAX_RETVALS && SumRight(s, t) && Bounded(s, t) && ExactUntilFull(s, t) && ErrorsLow(t) && UntrackedLow(s, t)
  }

  lemma Snoc(s: seq<Observation>, o: Observation)
    ensures TotalWeight(s + [o]) == TotalWeight(s) + o.weight
    ensures forall v :: TrueWeight(s + [o], v) == TrueWeight(s, v) + (if o.value == v then o.weight else 0)
    ensures forall v :: TrueCount(s + [o], v) == TrueCount(s, v) + (if o.value == v then 1 else 0)
  {
    assert (s + [o])[..|s|] == s;
  }

  /** Entries other than the observed value keep their bounds. */
  lemma BoundsKept(s: seq<Observation>, t: Table, rest: Table, o: Observation, c: RetvalCount)
    requires Bounded(s, t) && rest.Keys <= t.Keys && forall k <- rest :: rest[k] == t[k]
    requires EntryBounds(s + [o], o.value, c)
    ensures Bounded(s + [o], rest[o.value := c])
  {
    hide TrueWeight, TrueCount;
    Snoc(s, o);
    var t' := rest[o.value := c];
    forall x | x in t'
      ensures EntryBounds(s + [o], x, t'[x])
    {
      if x != o.value { assert EntryBounds(s, x, t[x]); }
    }
  }

  lemma HitKeeps(s: seq<Observation>, t: Table, o: Observation)
    requires Summary(s, t) && o.value in t
    ensures Summary(s + [o], t[o.value := RetvalCount(t[o.value].count + 1, t[o.value].weighted + o.weight, t[o.value].error)])
  {
    hide TrueWeight, TrueCount, TotalWeight, SumWeighted, Bounded;
    var v := o.value;
    var c := RetvalCount(t[v].count + 1, t[v].weighted + o.weight, t[v].error);
    Snoc(s, o);
    SumUpdate(t, v, c);
    SumSplit(t.Keys, t, v);
    assert t[v := c].Keys == t.Keys;
    assert |t[v := c]| == |t|;
    BoundsOf(s, t, v);
    BoundsKept(s, t, t, o, c);
  }

  lemma BoundsOf(s: seq<Observation>, t: Table, v: string)
    requires Bounded(s, t) && v in t
    ensures EntryBounds(s, v, t[v])
  {
  }

  lemma InsertKeeps(s: seq<Observation>, t: Table, o: Observation)
    requires Summary(s, t) && o.value !in t && |t| < MAX_RETVALS && o.weight >= 1
    ensures Summary(s + [o], t[o.value := RetvalCount(1, o.weight, 0)])
  {
    hide TrueWeight, TrueCount, TotalWeight, SumWeighted, Bounded;
    var t' := t[o.value := RetvalCount(1, o.weight, 0)];
    Snoc(s, o);
    SumUpdate(t, o.value, RetvalCount(1, o.weight, 0));
    assert t.Keys - {o.value} == t.Keys;
    assert t'.Keys == t.Keys + {o.value};
    BoundsKept(s, t, t, o, RetvalCount(1, o.weight, 0));
  }

  lemma ReplaceKeeps(s: seq<Observation>, t: Table, o: Observation, m: string)
    requires Summary(s, t) && o.value !in t && |t| == MAX_RETVALS && o.weight >= 1 && IsMinimum(t, m)
    ensures Summary(s + [o], Replaced(t, m, o.value, o.weight))
  {
    hide TrueWeight, TrueCount, TotalWeight, SumWeighted, Bounded, UntrackedLow, ErrorsLow;
    var v, rest := o.value, t - {m};
    var c := RetvalCount(1, t[m].weighted + o.weight, t[m].weighted);
    var t' := rest[v := c];
    Snoc(s, o);
    assert rest.Keys == t.Keys - {m} && rest.Keys - {v} == rest.Keys;
    SumUpdate(rest, v, c);
    SumSame(rest.Keys, rest, t);
    SumSplit(t.Keys, t, m);
    assert t'.Keys == rest.Keys + {v};
    assert |t'| == MAX_RETVALS;
    BoundsOf(s, t, m);
    UntrackedBelow(s, t, v, m);
    BoundsKept(s, t, rest, o, c);
    ReplaceLow(s, t, o, m);
  }

  lemma UntrackedBelow(s: seq<Observation>, t: Table, v: string, m: string)
    requires UntrackedLow(s, t) && v !in t && m in t
    ensures TrueWeight(s, v) <= t[m].weighted
  {
  }

  lemma ReplaceLow(s: seq<Observation>, t: Table, o: Observation, m: string)
    requires ErrorsLow(t) && UntrackedLow(s, t) && Bounded(s, t) && o.value !in t && IsMinimum(t, m)
    ensures var t' := Replaced(t, m, o.value, o.weight); ErrorsLow(t') && UntrackedLow(s + [o], t')
  {
    hide TrueWeight, TrueCount;
    var t' := Replaced(t, m, o.value, o.weight);
    Snoc(s, o);
    BoundsOf(s, t, m);
    forall k | k in t'
      ensures t[m].weighted <= t'[k].weighted
    {
      if k != o.value { assert t'[k] == t[k]; }
    }
    forall v, k | v in t' && k in t'
      ensures t'[v].error <= t'[k].weighted
    {
      if v != o.value { assert t[v].error <= t[m].weighted; }
    }
    forall v, k | v !in t' && k in t'
      ensures TrueWeight(s + [o], v) <= t'[k].weighted
    {
      if v != m { UntrackedBelow(s, t, v, m); }
    }
  }

  lemma StepKeeps(s: seq<Observation>, t: Table, o: Observation, t': Table)
    requires Summary(s, t) && o.weight >= 1 && Step(t, o.value, o.weight, t')
    ensures Summary(s + [o], t')
  {
    if o.value in t {
      HitKeeps(s, t, o);
    } else if |t| < MAX_RETVALS {
      InsertKeeps(s, t, o);
    } else {
      var m :| IsMinimum(t, m) && t' == Replaced(t, m, o.value, o.weight);
      ReplaceKeeps(s, t, o, m);
    }
  }

  lemma {:induction false} RunKeeps(s: seq<Observation>, tables: seq<Table>, n: nat)
    requires Run(s, tables) && n <= |s|
    ensures Summary(s[..n], tables[n])
  {
    hide Summary, Step;
    if n > 0 {
      RunKeeps(s, tables, n - 1);
      StepKeeps(s[..n - 1], tables[n - 1], s[n - 1], tables[n]);
      assert s[..n - 1] + [s[n - 1]] == s[..n];
    } else {
      StartSummary();
    }
  }

  lemma StartSummary()
    ensures Summary([], map[])
  {
  }

  /** Weighted Space-Saving, for every stream and however ties are broken: the weighted counts
   *  add up to the total weight, each tracked value's true weight lies in its interval, no error
   *  exceeds a 64th of the total, everything heavier than a 64th is tracked, and an entry without
   *  error is exact in both its numbers. */
  lemma SpaceSavingBounds(s: seq<Observation>, tables: seq<Table>)
    requires Run(s, tables)
    ensures var t := tables[|s|];
            && |t| <= 64
            && SumWeighted(t.Keys, t) == TotalWeight(s)
            && (forall v <- t ::
                  && t[v].weighted - t[v].error <= TrueWeight(s, v) <= t[v].weighted
                  && 64 * t[v].error <= TotalWeight(s)
                  && t[v].count <= TrueCount(s, v)
                  && (t[v].error == 0 ==> t[v].count == TrueCount(s, v) && t[v].weighted == TrueWeight(s, v)))
            && (forall v :: 64 * TrueWeight(s, v) > TotalWeight(s) ==> v in t)
  {
    var t := tables[|s|];
    RunKeeps(s, tables, |s|);
    assert s[..|s|] == s;
    forall v | v in t
      ensures 64 * t[v].error <= TotalWeight(s)
    {
      if |t| == 64 { SumAtLeast(t.Keys, t, t[v].error); }
    }
    forall v | v !in t
      ensures 64 * TrueWeight(s, v) <= TotalWeight(s)
    {
      if |t| == MAX_RETVALS { SumAtLeast(t.Keys, t, TrueWeight(s, v)); }
    }
  }

  // ---- latencies ----

  /** Upper edges of the latency buckets, in nanoseconds. */
  const LATENCY_EDGES: seq<int> :=
    [1_000, 10_000, 100_000, 1_000_000, 10_000_000, 100_000_000, 1_000_000_000, 10_000_000_000]

  const BUCKETS := 9

  /** The first bucket whose edge is not exceeded, the overflow bucket if there is none. */
  predicate IsBucket(elapsed: int, idx: nat)
  {
    && idx < BUCKETS
    && (idx < |LATENCY_EDGES| ==> elapsed <= LATENCY_EDGES[idx])
    && forall i | 0 <= i < idx :: elapsed > LATENCY_EDGES[i]
  }

  /** A microsecond and its multiples by ten. */
  function Edge(i: nat): nat
  {
    if i == 0 then 1_000 else 10 * Edge(i - 1)
  }

  /** A bucket holds the times above one edge and up to the next. */
  lemma BucketMeans(elapsed: int, idx: nat)
    ensures IsBucket(elapsed, idx)
       <==> idx <= 8 && (idx > 0 ==> elapsed > Edge(idx - 1)) && (idx < 8 ==> elapsed <= Edge(idx))
  {
    EdgesAre();
    assert idx <= 8 ==> forall i | 0 <= i < idx :: LATENCY_EDGES[i] <= LATENCY_EDGES[idx - 1];
  }

  lemma EdgesAre()
    ensures |LATENCY_EDGES| == 8 && forall i | 0 <= i < 8 :: LATENCY_EDGES[i] == Edge(i)
  {
    assert Edge(1) == 10_000 && Edge(2) == 100_000 && Edge(3) == 1_000_000 && Edge(4) == 10_000_000;
    assert Edge(5) == 100_000_000 && Edge(6) == 1_000_000_000 && Edge(7) == 10_000_000_000;
  }

  function Sum(s: seq<nat>): nat
  {
    if s == [] then 0 else s[0] + Sum(s[1..])
  }

  lemma {:induction false} SumAdd(s: seq<nat>, i: nat, n: nat)
    requires i < |s|
    ensures Sum(s[i := s[i] + n]) == Sum(s) + n
  {
    if i > 0 {
      SumAdd(s[1..], i - 1, n);
      assert s[i := s[i] + n][1..] == s[1..][i - 1 := s[1..][i - 1] + n];
    } else {
      assert s[0 := s[0] + n][1..] == s[1..];
    }
  }

  lemma {:induction false} SumZero(s: seq<nat>)
    requires forall i | 0 <= i < |s| :: s[i] == 0
    ensures Sum(s) == 0
  {
    if s != [] { SumZero(s[1..]); }
  }

  /** What a `funcAgg` holds. */
  datatype Tally = Tally(calls: nat, weightedCalls: nat, latencies: seq<nat>, weightedLatencies: seq<nat>, retvals: Table)

  const EMPTY_TALLY := Tally(0, 0, [0, 0, 0, 0, 0, 0, 0, 0, 0], [0, 0, 0, 0, 0, 0, 0, 0, 0], map[])

  /** The tallies with one call more in a bucket. */
  ghost predicate Tallied(a: Tally, b: Tally, idx: nat, weight: nat)
  {
    && idx < |a.latencies| == |a.weightedLatencies|
    && b.latencies == a.latencies[idx := a.latencies[idx] + 1]
    && b.weightedLatencies == a.weightedLatencies[idx := a.weightedLatencies[idx] + weight]
  }

  /** One call recorded. */
  ghost predicate Recorded(a: Tally, elapsed: int, retval: string, w: nat, b: Tally)
  {
    && b.calls == a.calls + 1 && b.weightedCalls == a.weightedCalls + Weight(w)
    && (exists idx: nat :: IsBucket(elapsed, idx) && Tallied(a, b, idx, Weight(w)))
    && (if retval == "" then b.retvals == a.retvals else Step(a.retvals, retval, Weight(w), b.retvals))
  }

  /** `funcAgg`. */
  class FuncAgg {
    var calls: nat
    var weightedCalls: nat
    const latencies: array<nat>
    const weightedLatencies: array<nat>
    var retvals: Table

    /** The histograms account for every call, once, with its weight. */
    ghost predicate Valid()
      reads this, latencies, weightedLatencies
    {
      && latencies.Length == weightedLatencies.Length == BUCKETS
      && latencies != weightedLatencies
      && Sum(latencies[..]) == calls
      && Sum(weightedLatencies[..]) == weightedCalls
    }

    /** Neither of the other's histograms is one of these. */
    ghost predicate Apart(other: FuncAgg)
    {
      && this != other && latencies != other.latencies && weightedLatencies != other.weightedLatencies
      && latencies != other.weightedLatencies && weightedLatencies != other.latencies
    }

    ghost function View(): Tally
      reads this, latencies, weightedLatencies
    {
      Tally(calls, weightedCalls, latencies[..], weightedLatencies[..], retvals)
    }

    constructor ()
      ensures Valid() && fresh(latencies) && fresh(weightedLatencies) && View() == EMPTY_TALLY
    {
      calls, weightedCalls := 0, 0;
      latencies := new nat[BUCKETS](_ => 0);
      weightedLatencies := new nat[BUCKETS](_ => 0);
      retvals := map[];
      new;
      SumZero(latencies[..]);
      SumZero(weightedLatencies[..]);
      assert latencies[..] == EMPTY_TALLY.latencies;
    }

    /** `recordRetval`: the map is searched in no particular order. */
    method RecordRetval(retval: string, w: nat)
      modifies this`retvals
      ensures Step(old(retvals), retval, Weight(w), retvals)
    {
      var weight := if w == 0 then 1 else w;
      if retval in retvals {
        var current := retvals[retval];
        retvals := retvals[retval := RetvalCount(current.count + 1, current.weighted + weight, current.error)];
        return;
      }
      if |retvals| < MAX_RETVALS {
        retvals := retvals[retval := RetvalCount(1, weight, 0)];
        return;
      }
      var minimumValue := FindMinimum();
      var minimum := retvals[minimumValue];
      retvals := retvals - {minimumValue};
      retvals := retvals[retval := RetvalCount(1, minimum.weighted + weight, minimum.weighted)];
    }

    method FindMinimum() returns (m: string)
      requires |retvals| > 0
      ensures IsMinimum(retvals, m)
    {
      assert |retvals.Keys| > 0;
      m :| m in retvals;
      var todo := retvals.Keys - {m};
      while todo != {}
        invariant todo <= retvals.Keys && m in retvals
        invariant forall k <- retvals.Keys - todo :: retvals[m].weighted <= retvals[k].weighted
        decreases |todo|
      {
        var value :| value in todo;
        todo := todo - {value};
        if retvals[value].weighted < retvals[m].weighted {
          m := value;
        }
      }
    }

    /** The two histograms gain one call. */
    method CountIn(idx: nat, weight: nat)
      requires latencies.Length == weightedLatencies.Length == BUCKETS && latencies != weightedLatencies && idx < BUCKETS
      modifies latencies, weightedLatencies
      ensures latencies[..] == old(latencies[..])[idx := old(latencies[..])[idx] + 1]
      ensures weightedLatencies[..] == old(weightedLatencies[..])[idx := old(weightedLatencies[..])[idx] + weight]
      ensures Sum(latencies[..]) == old(Sum(latencies[..])) + 1
      ensures Sum(weightedLatencies[..]) == old(Sum(weightedLatencies[..])) + weight
    {
      hide Sum;
      SumAdd(latencies[..], idx, 1);
      SumAdd(weightedLatencies[..], idx, weight);
      latencies[idx] := latencies[idx] + 1;
      weightedLatencies[idx] := weightedLatencies[idx] + weight;
      assert latencies[..] == old(latencies[..])[idx := old(latencies[..])[idx] + 1];
      assert weightedLatencies[..] == old(weightedLatencies[..])[idx := old(weightedLatencies[..])[idx] + weight];
    }

    /** `recordAgg` once the function's entry is found. */
    method RecordCall(elapsed: int, retval: string, w: nat)
      requires Valid()
      modifies this`calls, this`weightedCalls, this`retvals, latencies, weightedLatencies
      ensures Valid()
      ensures Recorded(old(View()), elapsed, retval, w, View())
    {
      hide Step, Sum;
      ghost var before := View();
      var weight := if w == 0 then 1 else w;
      calls := calls + 1;
      weightedCalls := weightedCalls + weight;
      var idx := 0;
      while idx < |LATENCY_EDGES| && elapsed > LATENCY_EDGES[idx]
        invariant 0 <= idx <= |LATENCY_EDGES|
        invariant forall i | 0 <= i < idx :: elapsed > LATENCY_EDGES[i]
      {
        idx := idx + 1;
      }
      assert IsBucket(elapsed, idx);
      CountIn(idx, weight);
      assert Tallied(before, View(), idx, weight);
      if retval != "" {
        RecordRetval(retval, weight);
      }
    }
  }
}
