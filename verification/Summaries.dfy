/** The aggregation table of a process: one summary for each function, fed call by call. */
module Summaries {
  import opened TraceEvents
  import opened ManagerState
  import opened Aggregation

  /** The calls of one function, in order. */
  function OfName(records: seq<CallRecord>, name: string): seq<CallRecord>
  {
    if records == [] then []
    else
      var last := records[|records| - 1];
      OfName(records[..|records| - 1], name) + if last.funcname == name then [last] else []
  }

  function WeightOf(records: seq<CallRecord>): nat
  {
    if records == [] then 0 else WeightOf(records[..|records| - 1]) + Weight(records[|records| - 1].weight)
  }

  /** The return values seen; a call without one is not counted in the table. */
  function Observed(records: seq<CallRecord>): seq<Observation>
  {
    if records == [] then []
    else
      var last := records[|records| - 1];
      Observed(records[..|records| - 1]) + if last.retval == "" then [] else [Observation(last.retval, Weight(last.weight))]
  }

  /** How many of the calls, and of what weight, took a time of one bucket. */
  function InBucket(records: seq<CallRecord>, idx: nat): nat
  {
    if records == [] then 0
    else InBucket(records[..|records| - 1], idx) + if IsBucket(records[|records| - 1].elapsed, idx) then 1 else 0
  }

  function WeightInBucket(records: seq<CallRecord>, idx: nat): nat
  {
    if records == [] then 0
    else
      var last := records[|records| - 1];
      WeightInBucket(records[..|records| - 1], idx) + if IsBucket(last.elapsed, idx) then Weight(last.weight) else 0
  }

  /** The summary is one that recording these calls can lead to; ties in the table of return values
   *  are broken in any way. */
  ghost predicate Summarizes(records: seq<CallRecord>, a: Tally)
    decreases |records|
  {
    if records == [] then a == EMPTY_TALLY
    else
      var last := records[|records| - 1];
      exists b :: Summarizes(records[..|records| - 1], b) && Recorded(b, last.elapsed, last.retval, last.weight, a)
  }

  /** The table of return values is reached by a run of Space-Saving. */
  ghost predicate Reached(s: seq<Observation>, t: Table)
  {
    exists tables :: Run(s, tables) && tables[|s|] == t
  }

  lemma ReachedStart()
    ensures Reached([], map[])
  {
    var tables: seq<Table> := [map[]];
    assert Run([], tables) && tables[0] == map[];
  }

  lemma ReachedNext(s: seq<Observation>, t: Table, o: Observation, t': Table)
    requires Reached(s, t) && o.weight >= 1 && Step(t, o.value, o.weight, t')
    ensures Reached(s + [o], t')
  {
    hide Step;
    var tables :| Run(s, tables) && tables[|s|] == t;
    var more, longer := tables + [t'], s + [o];
    forall i | 0 <= i < |longer|
      ensures longer[i].weight >= 1 && Step(more[i], longer[i].value, longer[i].weight, more[i + 1])
    {
      if i < |s| { assert longer[i] == s[i] && more[i] == tables[i] && more[i + 1] == tables[i + 1]; }
    }
    assert Run(longer, more) && more[|longer|] == t';
  }

  lemma OneBucket(elapsed: int, i: nat, j: nat)
    requires IsBucket(elapsed, i) && IsBucket(elapsed, j)
    ensures i == j
  {
    assert i < |LATENCY_EDGES| ==> LATENCY_EDGES[i] >= elapsed;
    assert j < |LATENCY_EDGES| ==> LATENCY_EDGES[j] >= elapsed;
  }

  /** What a function's summary says of its calls: how many and of what weight, how they spread over
   *  the latency buckets, and a table of return values that is a run of Space-Saving over them. */
  ghost predicate Tells(records: seq<CallRecord>, a: Tally)
  {
    && a.calls == |records| && a.weightedCalls == WeightOf(records)
    && |a.latencies| == BUCKETS == |a.weightedLatencies|
    && (forall i | 0 <= i < BUCKETS :: a.latencies[i] == InBucket(records, i) && a.weightedLatencies[i] == WeightInBucket(records, i))
    && Reached(Observed(records), a.retvals)
  }

  lemma TellsNext(records: seq<CallRecord>, b: Tally, last: CallRecord, a: Tally)
    requires Tells(records, b) && Recorded(b, last.elapsed, last.retval, last.weight, a)
    ensures Tells(records + [last], a)
  {
    hide Step, IsBucket, Reached, InBucket, WeightInBucket, Observed;
    var more := records + [last];
    assert more[..|more| - 1] == records;
    var idx: nat :| IsBucket(last.elapsed, idx) && Tallied(b, a, idx, Weight(last.weight));
    forall i: nat | i < BUCKETS
      ensures a.latencies[i] == InBucket(more, i) && a.weightedLatencies[i] == WeightInBucket(more, i)
    {
      BucketNext(records, last, i, idx);
    }
    RetvalNext(records, b.retvals, last, a.retvals);
  }

  lemma BucketNext(records: seq<CallRecord>, last: CallRecord, i: nat, idx: nat)
    requires IsBucket(last.elapsed, idx)
    ensures InBucket(records + [last], i) == InBucket(records, i) + if i == idx then 1 else 0
    ensures WeightInBucket(records + [last], i) == WeightInBucket(records, i) + if i == idx then Weight(last.weight) else 0
  {
    hide IsBucket;
    assert (records + [last])[..|records|] == records;
    if IsBucket(last.elapsed, i) { OneBucket(last.elapsed, i, idx); }
  }

  lemma RetvalNext(records: seq<CallRecord>, t: Table, last: CallRecord, t': Table)
    requires Reached(Observed(records), t)
    requires if last.retval == "" then t' == t else Step(t, last.retval, Weight(last.weight), t')
    ensures Reached(Observed(records + [last]), t')
  {
    hide Step, Reached;
    assert (records + [last])[..|records|] == records;
    if last.retval != "" {
      ReachedNext(Observed(records), t, Observation(last.retval, Weight(last.weight)), t');
    } else {
      assert Observed(records) + [] == Observed(records);
    }
  }

  lemma TellsStart()
    ensures Tells([], EMPTY_TALLY)
  {
    ReachedStart();
  }

  lemma {:induction false} SummaryTells(records: seq<CallRecord>, a: Tally)
    requires Summarizes(records, a)
    ensures Tells(records, a)
    decreases |records|
  {
    hide Tells, Recorded;
    if records == [] {
      TellsStart();
    } else {
      var last, before := records[|records| - 1], records[..|records| - 1];
      var b :| Summarizes(before, b) && Recorded(b, last.elapsed, last.retval, last.weight, a);
      SummaryTells(before, b);
      TellsNext(before, b, last, a);
      assert before + [last] == records;
    }
  }

  /** After any events, the summary of any function of any process bounds what the process's samples
   *  contributed: the counts are exact, and every return value's weight lies in its interval. */
  lemma SummariesAreBounded(config: Config, evs: seq<TraceEvent>, pid: int, name: string, a: Tally)
    requires pid in HandledAll(NewManager(config), evs).pids
    requires Summarizes(OfName(HandledAll(NewManager(config), evs).pids[pid].records, name), a)
    ensures var records := OfName(HandledAll(NewManager(config), evs).pids[pid].records, name);
            var s, t := Observed(records), a.retvals;
            && a.calls == |records| && a.weightedCalls == WeightOf(records)
            && |t| <= 64 && SumWeighted(t.Keys, t) == TotalWeight(s)
            && (forall v <- t ::
                  && t[v].weighted - t[v].error <= TrueWeight(s, v) <= t[v].weighted
                  && 64 * t[v].error <= TotalWeight(s)
                  && (t[v].error == 0 ==> t[v].count == TrueCount(s, v) && t[v].weighted == TrueWeight(s, v)))
            && (forall v :: 64 * TrueWeight(s, v) > TotalWeight(s) ==> v in t)
  {
    hide HandledAll, OfName, Summarizes, Observed, TrueWeight, TrueCount, TotalWeight, SumWeighted, Step;
    var records := OfName(HandledAll(NewManager(config), evs).pids[pid].records, name);
    SummaryTells(records, a);
    var tables :| Run(Observed(records), tables) && tables[|Observed(records)|] == a.retvals;
    SpaceSavingBounds(Observed(records), tables);
  }

  // ---- the table itself ----

  /** The part of `pidState` that holds the summaries; `fed` is the history of `recordAgg` calls. */
  class ProcessAggregates {
    var agg: map<string, FuncAgg>
    ghost var view: map<string, Tally>
    ghost var fed: seq<CallRecord>
    ghost var entries: set<FuncAgg>
    ghost var histograms: set<array<nat>>

    ghost predicate Valid()
      reads this, entries, histograms
    {
      agg.Keys == view.Keys && Known(agg, entries, histograms) && AllApart(agg) && forall f <- agg :: Kept(agg[f], view[f])
    }

    /** Every function has been fed its own calls. */
    ghost predicate UpToDate()
      reads this
    {
      AllFed(fed, view)
    }

    constructor ()
      ensures Valid() && entries == {} && histograms == {} && UpToDate() && fed == []
    {
      agg, view, fed, entries, histograms := map[], map[], [], {}, {};
      new;
      NothingFed();
    }

    /** The entry of a function, made if there is none. */
    method FindOrCreate(name: string) returns (a: FuncAgg)
      requires Valid()
      modifies this`agg, this`view, this`entries, this`histograms
      ensures Valid() && fresh(entries - old(entries)) && fresh(histograms - old(histograms))
      ensures name in agg && a == agg[name] && agg.Keys == old(agg.Keys) + {name}
      ensures view == if name in old(view) then old(view) else old(view)[name := EMPTY_TALLY]
    {
      if name in agg {
        return agg[name];
      }
      a := Create(name);
    }

    method Create(name: string) returns (a: FuncAgg)
      requires Valid() && name !in agg
      modifies this`agg, this`view, this`entries, this`histograms
      ensures Valid() && fresh(entries - old(entries)) && fresh(histograms - old(histograms))
      ensures agg == old(agg)[name := a] && view == old(view)[name := EMPTY_TALLY]
    {
      hide FuncAgg.Valid, FuncAgg.View, Kept, FuncAgg.Apart;
      a := NewEntry();
      forall f | f in agg
        ensures agg[f].Apart(a) && a.Apart(agg[f])
      {
        FarApart(agg[f], a);
      }
      Adopt(name, a);
    }

    method Adopt(name: string, a: FuncAgg)
      requires Valid() && name !in agg && Kept(a, EMPTY_TALLY) && forall f <- agg :: agg[f].Apart(a) && a.Apart(agg[f])
      modifies this`agg, this`view, this`entries, this`histograms
      ensures Valid() && entries == old(entries) + {a} && histograms == old(histograms) + {a.latencies, a.weightedLatencies}
      ensures agg == old(agg)[name := a] && view == old(view)[name := EMPTY_TALLY]
    {
      hide Kept, FuncAgg.Apart, Known, AllApart;
      Adopted(agg, entries, histograms, name, a);
      agg, view := agg[name := a], view[name := EMPTY_TALLY];
      entries, histograms := entries + {a}, histograms + {a.latencies, a.weightedLatencies};
    }

    method NewEntry() returns (a: FuncAgg)
      ensures Kept(a, EMPTY_TALLY) && fresh(a) && fresh(a.latencies) && fresh(a.weightedLatencies)
    {
      a := new FuncAgg();
    }

    /** `recordAgg`. */
    method RecordAgg(r: CallRecord)
      requires Valid() && UpToDate()
      modifies this, entries, histograms
      ensures Valid() && fresh(entries - old(entries)) && fresh(histograms - old(histograms)) && UpToDate()
      ensures fed == old(fed) + [r] && agg.Keys == old(agg.Keys) + {r.funcname}
    {
      hide Recorded, AllFed, Valid, FuncAgg.View, OfName;
      var a := FindOrCreate(r.funcname);
      ghost var before := view[r.funcname];
      Record(a, r);
      NextFed(old(fed), r, old(view), before, view);
    }

    method Record(a: FuncAgg, r: CallRecord)
      requires Valid() && r.funcname in agg && a == agg[r.funcname]
      modifies this`view, this`fed, entries, histograms
      ensures Valid()
      ensures Recorded(old(view)[r.funcname], r.elapsed, r.retval, r.weight, a.View())
      ensures view == old(view)[r.funcname := a.View()] && fed == old(fed) + [r]
    {
      hide Recorded, FuncAgg.Valid, FuncAgg.View, Kept;
      RecordIn(a, r, view[r.funcname]);
      view, fed := view[r.funcname := a.View()], fed + [r];
    }

    method RecordIn(a: FuncAgg, r: CallRecord, ghost before: Tally)
      requires Kept(a, before)
      modifies a, a.latencies, a.weightedLatencies
      ensures Kept(a, a.View()) && Recorded(before, r.elapsed, r.retval, r.weight, a.View())
    {
      hide Recorded, FuncAgg.View;
      a.RecordCall(r.elapsed, r.retval, r.weight);
    }

    /** All calls of a process, one after the other. */
    method Feed(records: seq<CallRecord>)
      requires Valid() && UpToDate()
      modifies this, entries, histograms
      ensures Valid() && UpToDate() && fed == old(fed) + records
    {
      hide Valid, UpToDate;
      for i := 0 to |records|
        invariant Valid() && fresh(entries - old(entries)) && fresh(histograms - old(histograms)) && UpToDate()
        invariant fed == old(fed) + records[..i]
      {
        RecordAgg(records[i]);
        assert records[..i + 1] == records[..i] + [records[i]];
      }
      assert records[..|records|] == records;
    }
  }

  ghost predicate Known(agg: map<string, FuncAgg>, entries: set<FuncAgg>, histograms: set<array<nat>>)
  {
    forall f <- agg :: agg[f] in entries && agg[f].latencies in histograms && agg[f].weightedLatencies in histograms
  }

  /** No two functions share a histogram. */
  ghost predicate AllApart(agg: map<string, FuncAgg>)
  {
    forall f, g | f in agg && g in agg && f != g :: agg[f].Apart(agg[g])
  }

  lemma Adopted(agg: map<string, FuncAgg>, entries: set<FuncAgg>, histograms: set<array<nat>>, name: string, a: FuncAgg)
    requires Known(agg, entries, histograms) && AllApart(agg) && name !in agg
    requires forall f <- agg :: agg[f].Apart(a) && a.Apart(agg[f])
    ensures Known(agg[name := a], entries + {a}, histograms + {a.latencies, a.weightedLatencies}) && AllApart(agg[name := a])
  {
    hide FuncAgg.Apart;
  }

  lemma FarApart(a: FuncAgg, b: FuncAgg)
    requires a != b && {a.latencies, a.weightedLatencies} !! {b.latencies, b.weightedLatencies}
    ensures a.Apart(b) && b.Apart(a)
  {
    assert a.latencies in {a.latencies, a.weightedLatencies} && a.weightedLatencies in {a.latencies, a.weightedLatencies};
    assert b.latencies in {b.latencies, b.weightedLatencies} && b.weightedLatencies in {b.latencies, b.weightedLatencies};
  }

  /** The entry is consistent and holds this. */
  ghost predicate Kept(a: FuncAgg, v: Tally)
    reads a, a.latencies, a.weightedLatencies
  {
    a.Valid() && a.View() == v
  }

  ghost predicate AllFed(fed: seq<CallRecord>, view: map<string, Tally>)
  {
    forall f :: if f in view then OfName(fed, f) != [] && Summarizes(OfName(fed, f), view[f]) else OfName(fed, f) == []
  }

  lemma NothingFed()
    ensures AllFed([], map[])
  {
  }

  lemma NextFed(fed: seq<CallRecord>, r: CallRecord, view: map<string, Tally>, before: Tally, view': map<string, Tally>)
    requires AllFed(fed, view) && r.funcname in view' && view'.Keys == view.Keys + {r.funcname}
    requires before == if r.funcname in view then view[r.funcname] else EMPTY_TALLY
    requires Recorded(before, r.elapsed, r.retval, r.weight, view'[r.funcname])
    requires forall f <- view | f != r.funcname :: view'[f] == view[f]
    ensures AllFed(fed + [r], view')
  {
    hide Recorded, OfName;
    forall f
      ensures if f in view' then OfName(fed + [r], f) != [] && Summarizes(OfName(fed + [r], f), view'[f]) else OfName(fed + [r], f) == []
    {
      OfNameNext(fed, r, f);
      assert OfName(fed, f) + [] == OfName(fed, f);
      if f == r.funcname {
        var calls := OfName(fed, f);
        SummarizesNext(calls, before, r, view'[f]);
      }
    }
  }

  lemma SummarizesNext(calls: seq<CallRecord>, b: Tally, r: CallRecord, a: Tally)
    requires Recorded(b, r.elapsed, r.retval, r.weight, a) && if calls == [] then b == EMPTY_TALLY else Summarizes(calls, b)
    ensures Summarizes(calls + [r], a)
  {
    hide Recorded;
    var more := calls + [r];
    assert more[..|more| - 1] == calls && more[|more| - 1] == r;
    assert Summarizes(calls, b);
  }

  lemma OfNameNext(fed: seq<CallRecord>, r: CallRecord, f: string)
    ensures OfName(fed + [r], f) == OfName(fed, f) + if r.funcname == f then [r] else []
  {
    assert (fed + [r])[..|fed|] == fed;
  }
}
