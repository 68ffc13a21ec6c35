/** Aggregated samples are complete: the events of each form a properly matched tree of calls. */
module Samples {
  import opened TraceEvents
  import opened ManagerState
  import opened Accounting
  import opened Goroutines

  /** A call: its entry, the calls made inside, its return. */
  datatype Call = Call(entry: Retained, inner: seq<Call>, exit: Retained)

  /** The events of calls, in the order they happen. */
  function Word(calls: seq<Call>): seq<Retained>
  {
    if calls == [] then []
    else
      var c := calls[|calls| - 1];
      Word(calls[..|calls| - 1]) + [c.entry] + Word(c.inner) + [c.exit]
  }

  /** Every return belongs to the function entered, at every depth. */
  ghost predicate Matched(calls: seq<Call>)
  {
    calls != [] ==>
      var c := calls[|calls| - 1];
      && Matched(calls[..|calls| - 1]) && Matched(c.inner)
      && c.entry.event.location == Entry && c.exit.event.location == Ret && c.exit.probe.entry == c.entry.event.ip
  }

  /** What aggregation owes to calls: one record each, when they return. */
  function Records(calls: seq<Call>): seq<CallRecord>
  {
    if calls == [] then []
    else
      var c := calls[|calls| - 1];
      Records(calls[..|calls| - 1]) + Records(c.inner) + [Record(c)]
  }

  function Record(c: Call): CallRecord
  {
    CallRecord(c.exit.probe.funcname, Between(c.entry.event.timeNs, c.exit.event.timeNs), c.exit.text,
               if c.entry.event.denominator > 1 then c.entry.event.denominator else 1)
  }

  function Entries(es: seq<Retained>): nat
  {
    if es == [] then 0 else Entries(es[..|es| - 1]) + if es[|es| - 1].event.location.Entry? then 1 else 0
  }

  lemma {:induction false} EntriesAppend(a: seq<Retained>, b: seq<Retained>)
    ensures Entries(a + b) == Entries(a) + Entries(b)
  {
    if b == [] {
      assert a + b == a;
    } else {
      assert (a + b)[..|a + b| - 1] == a + b[..|b| - 1];
      EntriesAppend(a, b[..|b| - 1]);
    }
  }

  /** One record for each entry, and half of the events are entries. */
  lemma {:induction false} OneRecordPerEntry(calls: seq<Call>)
    requires Matched(calls)
    ensures |Records(calls)| == Entries(Word(calls)) && |Word(calls)| == 2 * |Records(calls)|
  {
    if calls == [] {
      NoCalls();
    } else {
      hide Word, Records, Matched, Entries;
      var c := calls[|calls| - 1];
      assert calls[..|calls| - 1] + [c] == calls;
      CallsSnoc(calls[..|calls| - 1], c);
      OneRecordPerEntry(calls[..|calls| - 1]);
      OneRecordPerEntry(c.inner);
      var w := Word(calls[..|calls| - 1]);
      EntriesAppend(w, [c.entry]);
      EntriesAppend(w + [c.entry], Word(c.inner));
      EntriesAppend(w + [c.entry] + Word(c.inner), [c.exit]);
      assert Entries([c.entry]) == 1 && Entries([c.exit]) == 0;
    }
  }

  // ---- a sample so far ----

  /** An open call with the calls finished inside. */
  datatype Open = Open(entry: Retained, inner: seq<Call>)

  datatype Partial = Partial(done: seq<Call>, open: seq<Open>)

  function OpenWord(open: seq<Open>): seq<Retained>
  {
    if open == [] then []
    else
      var o := open[|open| - 1];
      OpenWord(open[..|open| - 1]) + [o.entry] + Word(o.inner)
  }

  function OpenRecords(open: seq<Open>): seq<CallRecord>
  {
    if open == [] then [] else OpenRecords(open[..|open| - 1]) + Records(open[|open| - 1].inner)
  }

  function OpenFrames(open: seq<Open>): seq<Frame>
  {
    if open == [] then []
    else
      var e := open[|open| - 1].entry.event;
      OpenFrames(open[..|open| - 1]) + [Frame(e.ip, e.timeNs, SampleWeight(e.denominator))]
  }

  ghost predicate OpenMatched(open: seq<Open>)
  {
    open != [] ==>
      var o := open[|open| - 1];
      OpenMatched(open[..|open| - 1]) && Matched(o.inner) && o.entry.event.location == Entry
  }

  /** The partial tree accounts for the events and for the replay of them. */
  ghost predicate Explains(p: Partial, es: seq<Retained>)
  {
    && Matched(p.done) && OpenMatched(p.open)
    && es == Word(p.done) + OpenWord(p.open)
    && Replayed(es) == Replay(OpenFrames(p.open), Records(p.done) + OpenRecords(p.open), true)
  }

  lemma ReplaySnoc(es: seq<Retained>, e: Retained)
    ensures Replayed(es + [e]) == ReplayStep(Replayed(es), e)
  {
    assert (es + [e])[..|es|] == es;
  }

  lemma ExplainsEntry(p: Partial, es: seq<Retained>, e: Retained)
    requires Explains(p, es) && e.event.location == Entry
    ensures Explains(Partial(p.done, p.open + [Open(e, [])]), es + [e])
  {
    hide Replayed, Matched;
    ReplaySnoc(es, e);
    NoCalls();
    var open := p.open + [Open(e, [])];
    assert open[..|p.open|] == p.open;
    assert es + [e] == Word(p.done) + (OpenWord(p.open) + [e] + Word([]));
    assert OpenRecords(p.open) + Records([]) == OpenRecords(p.open);
  }

  lemma NoCalls()
    ensures Matched([]) && Word([]) == [] && Records([]) == []
  {
  }

  lemma CallsSnoc(calls: seq<Call>, c: Call)
    ensures Word(calls + [c]) == Word(calls) + [c.entry] + Word(c.inner) + [c.exit]
    ensures Records(calls + [c]) == Records(calls) + Records(c.inner) + [Record(c)]
    ensures Matched(calls + [c]) <==>
            && Matched(calls) && Matched(c.inner)
            && c.entry.event.location == Entry && c.exit.event.location == Ret && c.exit.probe.entry == c.entry.event.ip
  {
    assert (calls + [c])[..|calls|] == calls;
  }

  lemma OpenSnoc(open: seq<Open>, o: Open)
    ensures OpenWord(open + [o]) == OpenWord(open) + [o.entry] + Word(o.inner)
    ensures OpenRecords(open + [o]) == OpenRecords(open) + Records(o.inner)
    ensures OpenFrames(open + [o]) ==
            OpenFrames(open) + [Frame(o.entry.event.ip, o.entry.event.timeNs, SampleWeight(o.entry.event.denominator))]
    ensures OpenMatched(open + [o]) <==> OpenMatched(open) && Matched(o.inner) && o.entry.event.location == Entry
  {
    assert (open + [o])[..|open|] == open;
  }

  /** Closing the innermost open call. */
  function Close(p: Partial, e: Retained): Partial
    requires p.open != []
  {
    var n := |p.open| - 1;
    var c := Call(p.open[n].entry, p.open[n].inner, e);
    if n == 0 then Partial(p.done + [c], [])
    else Partial(p.done, p.open[..n - 1] + [Open(p.open[n - 1].entry, p.open[n - 1].inner + [c])])
  }

  lemma ExplainsReturn(p: Partial, es: seq<Retained>, e: Retained)
    requires Explains(p, es) && e.event.location == Ret && p.open != []
    requires e.probe.entry == p.open[|p.open| - 1].entry.event.ip
    ensures Explains(Close(p, e), es + [e])
  {
    hide Replayed, Matched, OpenMatched, Word, OpenWord, Records, OpenRecords, OpenFrames, Elapsed, Between;
    var n := |p.open| - 1;
    var o := p.open[n];
    var c := Call(o.entry, o.inner, e);
    ReplaySnoc(es, e);
    OpenSnoc(p.open[..n], o);
    ElapsedIsBetween(o.entry.event.timeNs, e.event.timeNs);
    assert p.open[..n] + [o] == p.open;
    assert OpenFrames(p.open)[..|OpenFrames(p.open)| - 1] == OpenFrames(p.open[..n]);
    NothingOpen();
    if n == 0 {
      assert p.open[..n] == [];
      CallsSnoc(p.done, c);
      ReturnAtTop(p, es, e, c);
    } else {
      var outer := p.open[n - 1];
      assert p.open[..n - 1] + [outer] == p.open[..n];
      OpenSnoc(p.open[..n - 1], outer);
      CallsSnoc(outer.inner, c);
      OpenSnoc(p.open[..n - 1], Open(outer.entry, outer.inner + [c]));
      ReturnInside(p, es, e, c);
    }
  }

  lemma NothingOpen()
    ensures OpenWord([]) == [] && OpenRecords([]) == [] && OpenFrames([]) == [] && OpenMatched([])
  {
  }

  lemma ReturnAtTop(p: Partial, es: seq<Retained>, e: Retained, c: Call)
    requires Explains(p, es) && |p.open| == 1 && c == Call(p.open[0].entry, p.open[0].inner, e)
    ensures es + [e] == Word(p.done + [c]) + OpenWord([])
    ensures Records(p.done) + OpenRecords(p.open) + [Record(c)] == Records(p.done + [c]) + OpenRecords([])
  {
    hide Replayed, Matched, OpenMatched, Word, OpenWord, Records, OpenRecords, OpenFrames;
    NothingOpen();
    CallsSnoc(p.done, c);
    OpenSnoc([], p.open[0]);
    assert [] + [p.open[0]] == p.open;
  }

  lemma ReturnInside(p: Partial, es: seq<Retained>, e: Retained, c: Call)
    requires Explains(p, es) && |p.open| > 1
    requires c == Call(p.open[|p.open| - 1].entry, p.open[|p.open| - 1].inner, e)
    ensures es + [e] == Word(p.done) + OpenWord(Close(p, e).open)
    ensures Records(p.done) + OpenRecords(p.open) + [Record(c)] == Records(p.done) + OpenRecords(Close(p, e).open)
  {
    hide Replayed, Matched, OpenMatched, Word, OpenWord, Records, OpenRecords, OpenFrames;
    var n := |p.open| - 1;
    var o, outer := p.open[n], p.open[n - 1];
    assert p.open[..n - 1] + [outer] == p.open[..n];
    assert p.open[..n] + [o] == p.open;
    OpenSnoc(p.open[..n - 1], outer);
    OpenSnoc(p.open[..n], o);
    CallsSnoc(outer.inner, c);
    OpenSnoc(p.open[..n - 1], Open(outer.entry, outer.inner + [c]));
    var w, i := OpenWord(p.open[..n - 1]) + [outer.entry], Word(outer.inner);
    assert w + (i + [o.entry] + Word(o.inner) + [e]) == (w + i + [o.entry] + Word(o.inner)) + [e];
    assert Word(p.done) + (OpenWord(p.open) + [e]) == (Word(p.done) + OpenWord(p.open)) + [e];
    var r := OpenRecords(p.open[..n - 1]);
    assert r + (Records(outer.inner) + Records(o.inner) + [Record(c)]) == (r + Records(outer.inner) + Records(o.inner)) + [Record(c)];
    assert Records(p.done) + (OpenRecords(p.open) + [Record(c)]) == (Records(p.done) + OpenRecords(p.open)) + [Record(c)];
  }

  /** Only entries and returns are retained. */
  ghost predicate Plain(es: seq<Retained>)
  {
    forall i | 0 <= i < |es| :: !es[i].event.location.GoroutineExit?
  }

  /** Whatever replays without giving up is explained by a partial tree. */
  lemma {:induction false} Explained(es: seq<Retained>) returns (p: Partial)
    requires Plain(es) && Replayed(es).ok
    ensures Explains(p, es)
  {
    if es == [] {
      p := Partial([], []);
      NoCalls();
      NothingOpen();
    } else {
      var n := |es| - 1;
      assert es[..n] + [es[n]] == es;
      var q := Explained(es[..n]);
      if es[n].event.location.Entry? {
        ExplainsEntry(q, es[..n], es[n]);
        p := Partial(q.done, q.open + [Open(es[n], [])]);
      } else {
        OpenFramesTop(q.open);
        ExplainsReturn(q, es[..n], es[n]);
        p := Close(q, es[n]);
      }
    }
  }

  lemma OpenFramesTop(open: seq<Open>)
    ensures |OpenFrames(open)| == |open|
    ensures open != [] ==> OpenFrames(open)[|open| - 1].entryIp == open[|open| - 1].entry.event.ip
  {
  }

  // ---- what a goroutine holds ----

  function Ips(frames: seq<Frame>): (r: seq<int>)
    ensures |r| == |frames|
  {
    seq(|frames|, i requires 0 <= i < |frames| => frames[i].entryIp)
  }

  /** Every retained event is the goroutine's own, with the probe of its address. */
  ghost predicate Genuine(config: Config, key: Key, es: seq<Retained>)
  {
    forall i | 0 <= i < |es| ::
      && es[i].event.key == key && !es[i].event.location.GoroutineExit?
      && es[i].event.ip in config.probes && es[i].probe == config.probes[es[i].event.ip]
  }

  /** Unless marked invalid, the replay of what is retained has not given up and has the observed
   *  stack open. */
  ghost predicate Sound(config: Config, key: Key, g: Goroutine)
  {
    && Genuine(config, key, g.events)
    && (config.aggregate && !g.invalid ==> Replayed(g.events).ok && Ips(Replayed(g.events).frames) == g.stack)
  }

  lemma NothingSound(config: Config, key: Key)
    ensures Sound(config, key, NOTHING)
  {
  }

  lemma TakenSound(config: Config, key: Key, g: Goroutine, ev: TraceEvent)
    requires Sound(config, key, g) && ev.key == key && !ev.location.GoroutineExit? && !Ignores(config, g, ev)
    ensures Sound(config, key, Taken(config, g, ev))
  {
    hide Replayed;
    var n := |g.events|;
    if n > 0 && IsDuplicate(Last(g), ev) {
      var last := g.events[n - 1];
      var es := g.events[..n - 1];
      assert es + [last] == g.events;
      assert es + [last.(event := ev)] == g.events[n - 1 := last.(event := ev)];
      ReplaySnoc(es, last);
      ReplaySnoc(es, last.(event := ev));
    } else {
      ReplaySnoc(g.events, Retained(ev, config.probes[ev.ip], ev.text));
    }
  }

  lemma StepSound(config: Config, key: Key, g: Goroutine, ev: TraceEvent)
    requires Sound(config, key, g) && ev.key == key
    ensures Sound(config, key, Step(config, g, ev))
  {
    hide Sound, Ignores, Taken, Ends;
    NothingSound(config, key);
    if !ev.location.GoroutineExit? && !Ignores(config, Fresh(config, g, ev), ev) {
      TakenSound(config, key, Fresh(config, g, ev), ev);
    }
  }

  lemma {:induction false} RunSound(config: Config, evs: seq<TraceEvent>, key: Key)
    ensures Sound(config, key, Of(HandledAll(NewManager(config), evs), key))
  {
    hide Handled, Step, Sound;
    NothingSound(config, key);
    if evs != [] {
      var before, ev := evs[..|evs| - 1], evs[|evs| - 1];
      RunSound(config, before, key);
      MemoryAccountingIsExact(config, before);
      RunTidy(config, before);
      HandleOf(HandledAll(NewManager(config), before), ev, key);
      if ev.key == key { StepSound(config, key, Of(HandledAll(NewManager(config), before), key), ev); }
    }
  }

  // ---- what is recorded ----

  function RecordsOf(m: Manager, pid: int): seq<CallRecord>
  {
    if pid in m.pids then m.pids[pid].records else []
  }

  /** The event closes a sample that is neither marked invalid nor left open. */
  ghost predicate Aggregates(m: Manager, ev: TraceEvent)
  {
    && m.config.aggregate
    && !ev.location.GoroutineExit? && !(m.config.adaptive && ev.flags.abort)
    && Add(m, ev).kept
    && var g := Of(Add(m, ev).manager, ev.key);
       Ends(m.config, g, ev) && !g.invalid && g.stack == []
  }

  lemma TouchRecords(m: Manager, pid: int, p: int)
    ensures RecordsOf(Touch(m, pid), p) in {RecordsOf(m, p), []}
    ensures p == pid || !m.config.adaptive ==> RecordsOf(Touch(m, pid), p) == RecordsOf(m, p)
    ensures pid in m.pids ==> RecordsOf(Touch(m, pid), p) == RecordsOf(m, p)
  {
    if pid !in m.pids {
      var r := m.(seqNo := m.seqNo + 1, requests := m.requests + [pid]);
      assert forall q :: q in Roomy(r).pids ==> q in m.pids && Roomy(r).pids[q] == m.pids[q];
    }
  }

  lemma DropRecords(m: Manager, key: Key, p: int)
    ensures RecordsOf(DropStack(m, key), p) == RecordsOf(m, p)
  {
  }

  lemma RetainRecords(m: Manager, ev: TraceEvent, p: int)
    ensures var r := Retain(m, ev).manager;
            && RecordsOf(r, p) in {RecordsOf(m, p), []}
            && (p == ev.key.pid || !m.config.adaptive ==> RecordsOf(r, p) == RecordsOf(m, p))
  {
    hide Touch;
    if ev.ip in m.config.probes { TouchRecords(m, ev.key.pid, p); }
  }

  lemma AddRecords(m: Manager, ev: TraceEvent, p: int)
    ensures var a := Add(m, ev).manager;
            && RecordsOf(a, p) in {RecordsOf(m, p), []}
            && (p == ev.key.pid || !m.config.adaptive ==> RecordsOf(a, p) == RecordsOf(m, p))
  {
    hide DropStack, Retain;
    if !m.config.adaptive {
      RetainRecords(m, ev, p);
    } else {
      DropRecords(m, ev.key, p);
      var r := ResetStale(m, ev);
      var u := r.(suppressed := r.suppressed - {ev.key});
      DropRecords(u, ev.key, p);
      RetainRecords(u, ev, p);
    }
  }

  /** Records appear only when a sample is aggregated; adaptive mode may forget those of another
   *  process together with it. */
  lemma RecordsOnlyFromSamples(m: Manager, ev: TraceEvent, p: int)
    requires Silenced(m.pids, m.suppressed) && AllTidy(m)
    ensures var was, now := RecordsOf(m, p), RecordsOf(Handled(m, ev), p);
            if p == ev.key.pid then
              now == was + (if Aggregates(m, ev) then Replayed(Of(Add(m, ev).manager, ev.key).events).records else [])
            else now == was || (m.config.adaptive && now == [])
  {
    hide DropStack, Add, Touch, Replayed, AllTidy, Silenced;
    var u := m.(suppressed := m.suppressed - {ev.key});
    DropRecords(u, ev.key, p);
    AddRecords(m, ev, p);
    var a := Add(m, ev);
    if !ev.location.GoroutineExit? && !(m.config.adaptive && ev.flags.abort) && a.kept {
      AddOf(m, ev, ev.key);
      ClosingRecords(m.config, a.manager, ev, p);
    }
  }

  /** The part of `Handle` after an event was kept. */
  lemma ClosingRecords(config: Config, a: Manager, ev: TraceEvent, p: int)
    requires a.config == config && ev.key.pid in a.pids
    ensures var g := Of(a, ev.key);
            var c := Touch(a, ev.key.pid);
            && Closes(config, c.pids[ev.key.pid], ev) == Ends(config, g, ev)
            && RecordsOf(c, p) == RecordsOf(a, p)
            && RecordsOf(DropStack(Conclude(c, ev), ev.key), p) ==
               RecordsOf(a, p) + if p == ev.key.pid && config.aggregate && !g.invalid && g.stack == []
                                 then Replayed(g.events).records else []
  {
    hide DropStack, Replayed, Roomy;
    TouchRecords(a, ev.key.pid, p);
    TouchAgainOf(a, ev.key.pid, ev.key);
    var c := Touch(a, ev.key.pid);
    TouchRecords(c, ev.key.pid, p);
    TouchAgainOf(c, ev.key.pid, ev.key);
    var t := Touch(c, ev.key.pid);
    TouchRecords(t, ev.key.pid, p);
    TouchAgainOf(t, ev.key.pid, ev.key);
    DropRecords(Conclude(c, ev), ev.key, p);
    assert RecordsOf(a, p) + [] == RecordsOf(a, p);
  }

  /** Every aggregated sample is complete. Whatever came before, the events of a sample that
   *  aggregation reaches are those of properly matched calls of the one goroutine; the replay does
   *  not give up on them; the process gains exactly one record for each entry, in the order the
   *  calls return, with the time to the matching return; and nothing of the sample stays. */
  lemma EverySampleIsComplete(config: Config, evs: seq<TraceEvent>, ev: TraceEvent) returns (calls: seq<Call>)
    requires Aggregates(HandledAll(NewManager(config), evs), ev)
    ensures var m := HandledAll(NewManager(config), evs);
            var es := Of(Add(m, ev).manager, ev.key).events;
            && calls != [] && Matched(calls) && Word(calls) == es
            && Genuine(config, ev.key, es)
            && Replayed(es).ok && Replayed(es).frames == []
            && RecordsOf(Handled(m, ev), ev.key.pid) == RecordsOf(m, ev.key.pid) + Records(calls)
            && |Records(calls)| == Entries(es)
            && Of(Handled(m, ev), ev.key) == NOTHING
  {
    hide DropStack, Add, Touch, Replayed, Silenced, AllTidy, Handled, HandledAll, Matched, Word, Records;
    var m := HandledAll(NewManager(config), evs);
    MemoryAccountingIsExact(config, evs);
    RunTidy(config, evs);
    RunSound(config, evs, ev.key);
    RecordsOnlyFromSamples(m, ev, ev.key.pid);
    AddOf(m, ev, ev.key);
    var f := Fresh(config, Of(m, ev.key), ev);
    NothingSound(config, ev.key);
    TakenSound(config, ev.key, f, ev);
    var g := Of(Add(m, ev).manager, ev.key);
    calls := SampleCalls(config, ev.key, g);
    OneRecordPerEntry(calls);
    HandleOf(m, ev, ev.key);
    assert g.events != [];
    if calls == [] { NoCalls(); }
  }

  lemma SampleCalls(config: Config, key: Key, g: Goroutine) returns (calls: seq<Call>)
    requires Sound(config, key, g) && config.aggregate && !g.invalid && g.stack == []
    ensures Replayed(g.events).ok && Replayed(g.events).frames == []
    ensures Matched(calls) && Word(calls) == g.events && Records(calls) == Replayed(g.events).records
  {
    hide Replayed;
    var p := Explained(g.events);
    OpenFramesTop(p.open);
    calls := p.done;
    assert p.open == [];
    NothingOpen();
  }
}
