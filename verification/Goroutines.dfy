/** One goroutine at a time: what handling an event means for the goroutine it belongs to, and for
 *  all the others. */
module Goroutines {
  import opened TraceEvents
  import opened ManagerState
  import opened Accounting

  /** What is retained of one goroutine. */
  datatype Goroutine = Goroutine(events: seq<Retained>, stack: seq<int>, invalid: bool)

  const NOTHING := Goroutine([], [], false)

  function Of(m: Manager, key: Key): Goroutine
  {
    if key.pid !in m.pids then NOTHING else In(m.pids[key.pid], key.goid)
  }

  function In(s: Process, goid: int): Goroutine
  {
    Goroutine(s.Events(goid), s.Stack(goid), goid in s.invalid)
  }

  function Last(g: Goroutine): TraceEvent
    requires g.events != []
  {
    g.events[|g.events| - 1].event
  }

  /** A retained event's effect on the observed stack. */
  function Observed(config: Config, g: Goroutine, ev: TraceEvent, probe: Probe): Goroutine
  {
    match ev.location
    case Entry => g.(stack := g.stack + [ev.ip])
    case Ret =>
      if config.aggregate && (g.stack == [] || g.stack[|g.stack| - 1] != probe.entry) then g.(invalid := true)
      else if g.stack != [] then g.(stack := g.stack[..|g.stack| - 1])
      else g
    case GoroutineExit => g
  }

  /** What a sample that starts anew finds. */
  function Fresh(config: Config, g: Goroutine, ev: TraceEvent): Goroutine
  {
    if config.adaptive && ev.flags.start && g.events != [] then NOTHING else g
  }

  predicate Ignores(config: Config, g: Goroutine, ev: TraceEvent)
  {
    || ev.ip !in config.probes
    || (g.events == [] && (ev.location != Entry || (config.adaptive && !ev.flags.start)))
  }

  function Taken(config: Config, g: Goroutine, ev: TraceEvent): Goroutine
    requires ev.ip in config.probes
  {
    if g.events != [] && IsDuplicate(Last(g), ev) then
      g.(events := g.events[|g.events| - 1 := g.events[|g.events| - 1].(event := ev)])
    else
      Observed(config, g.(events := g.events + [Retained(ev, config.probes[ev.ip], ev.text)]), ev, config.probes[ev.ip])
  }

  predicate Ends(config: Config, g: Goroutine, ev: TraceEvent)
  {
    if config.aggregate && config.adaptive then ev.flags.end else g.stack == [] && g.events != []
  }

  /** One event of the goroutine, when neither the budget nor an eviction interferes. */
  function Step(config: Config, g: Goroutine, ev: TraceEvent): Goroutine
  {
    if ev.location.GoroutineExit? || (config.adaptive && ev.flags.abort) then NOTHING
    else
      var f := Fresh(config, g, ev);
      if Ignores(config, f, ev) then f
      else
        var t := Taken(config, f, ev);
        if Ends(config, t, ev) then NOTHING else t
  }

  /** A goroutine without events has no stack either. */
  ghost predicate Tidy(g: Goroutine)
  {
    g.events == [] ==> g == NOTHING
  }

  lemma StepTidy(config: Config, g: Goroutine, ev: TraceEvent)
    requires Tidy(g)
    ensures Tidy(Step(config, g, ev))
  {
  }

  ghost predicate AllTidy(m: Manager)
  {
    forall key :: Tidy(Of(m, key))
  }

  // ---- the operations, seen from one goroutine ----

  /** Neither count of what adaptive mode gives up has changed. */
  ghost predicate Steady(m: Manager, n: Manager)
  {
    n.droppedOverBudget == m.droppedOverBudget && n.evicted == m.evicted
  }

  ghost predicate Grown(m: Manager, n: Manager)
  {
    n.droppedOverBudget >= m.droppedOverBudget && n.evicted >= m.evicted
  }

  /** A stack over budget was dropped, or a process evicted. */
  ghost predicate Costs(m: Manager, n: Manager)
  {
    m.config.adaptive && (n.droppedOverBudget > m.droppedOverBudget || n.evicted > m.evicted)
  }

  /** Looking a process up changes nothing in it, but may forget another one. */
  lemma TouchOf(m: Manager, pid: int, key: Key)
    ensures Of(Touch(m, pid), key) == Of(m, key) ||
            (Of(Touch(m, pid), key) == NOTHING && key.pid != pid && Costs(m, Touch(m, pid)))
    ensures Grown(m, Touch(m, pid))
  {
    if pid !in m.pids {
      var r := m.(seqNo := m.seqNo + 1, requests := m.requests + [pid]);
      assert forall q :: q in Roomy(r).pids ==> q in m.pids && Roomy(r).pids[q] == m.pids[q];
    }
  }

  lemma DropOf(m: Manager, dropped: Key, key: Key)
    ensures Of(DropStack(m, dropped), key) == if key == dropped then NOTHING else Of(m, key)
    ensures Steady(m, DropStack(m, dropped)) && DropStack(m, dropped).suppressed == m.suppressed
  {
  }

  lemma ResetOf(m: Manager, ev: TraceEvent, key: Key)
    requires m.config.adaptive
    ensures Of(ResetStale(m, ev), key) == if key == ev.key then Fresh(m.config, Of(m, key), ev) else Of(m, key)
    ensures Steady(m, ResetStale(m, ev)) && ResetStale(m, ev).suppressed == m.suppressed
  {
    hide DropStack;
    DropOf(m, ev.key, key);
  }

  lemma OverBudgetOf(m: Manager, ev: TraceEvent, key: Key)
    requires m.config.adaptive
    ensures Of(OverBudget(m, ev), key) == if key == ev.key then NOTHING else Of(m, key)
    ensures Grown(m, OverBudget(m, ev)) && Costs(m, OverBudget(m, ev))
  {
    hide DropStack;
    DropOf(m, ev.key, key);
  }

  lemma AppendIn(config: Config, s: Process, ev: TraceEvent, probe: Probe, goid: int)
    ensures In(Append(config, s, ev, probe), goid) ==
            if goid != ev.key.goid then In(s, goid)
            else var g := In(s, goid);
              Observed(config, g.(events := g.events + [Retained(ev, probe, ev.text)]), ev, probe)
  {
  }

  lemma RetainOf(m: Manager, ev: TraceEvent, key: Key)
    ensures var r := Retain(m, ev);
            var g := Of(m, ev.key);
            && r.kept == !Ignores(m.config, g, ev)
            && (r.kept ==> ev.key.pid in r.manager.pids)
            && Of(r.manager, ev.key) == (if r.kept then Taken(m.config, g, ev) else g)
    ensures key != ev.key ==> Of(Retain(m, ev).manager, key) == Of(m, key) ||
                              (Of(Retain(m, ev).manager, key) == NOTHING && Costs(m, Retain(m, ev).manager))
    ensures Grown(m, Retain(m, ev).manager)
  {
    hide Touch, Append, Observed;
    if ev.ip in m.config.probes {
      TouchOf(m, ev.key.pid, ev.key);
      TouchOf(m, ev.key.pid, key);
      var s := Touch(m, ev.key.pid).pids[ev.key.pid];
      AppendIn(m.config, s, ev, m.config.probes[ev.ip], ev.key.goid);
      AppendIn(m.config, s, ev, m.config.probes[ev.ip], key.goid);
    }
  }

  lemma UnsuppressedOf(m: Manager, suppressed: set<Key>, key: Key)
    ensures Of(m.(suppressed := suppressed), key) == Of(m, key)
  {
  }

  /** `Add` for the goroutine of the event: as `Taken` says, unless it is suppressed or over
   *  budget; then it is left with nothing. */
  lemma AddOf(m: Manager, ev: TraceEvent, key: Key)
    requires Silenced(m.pids, m.suppressed) && AllTidy(m)
    ensures var a := Add(m, ev);
            var f := Fresh(m.config, Of(m, ev.key), ev);
            && (a.kept ==> !Ignores(m.config, f, ev) && ev.key.pid in a.manager.pids
                           && Of(a.manager, ev.key) == Taken(m.config, f, ev))
            && (!a.kept ==> (Ignores(m.config, f, ev) && Of(a.manager, ev.key) == f)
                            || (Of(a.manager, ev.key) == NOTHING
                                && (Costs(m, a.manager) || (m.config.adaptive && ev.key in m.suppressed))))
    ensures key != ev.key ==> Of(Add(m, ev).manager, key) == Of(m, key) ||
                              (Of(Add(m, ev).manager, key) == NOTHING && Costs(m, Add(m, ev).manager))
    ensures Grown(m, Add(m, ev).manager)
  {
    hide DropStack, ResetStale, OverBudget, Retain, Taken;
    if !m.config.adaptive {
      RetainOf(m, ev, key);
    } else {
      var r := ResetStale(m, ev);
      ResetOf(m, ev, key);
      ResetOf(m, ev, ev.key);
      if ev.key in r.suppressed && !ev.flags.start {
        SuppressedHasNothing(m, ev);
        UnsuppressedOf(r, r.suppressed - {ev.key}, key);
      } else {
        var u := r.(suppressed := r.suppressed - {ev.key});
        UnsuppressedOf(r, u.suppressed, key);
        OverBudgetOf(u, ev, key);
        OverBudgetOf(u, ev, ev.key);
        RetainOf(u, ev, key);
      }
    }
  }

  lemma SuppressedHasNothing(m: Manager, ev: TraceEvent)
    requires Silenced(m.pids, m.suppressed) && AllTidy(m) && !ev.flags.start
    requires ev.key in ResetStale(m, ev).suppressed
    ensures Of(m, ev.key) == NOTHING
  {
    assert Tidy(Of(m, ev.key));
  }

  lemma AggregateOf(m: Manager, aggregated: Key, key: Key)
    requires aggregated.pid in m.pids
    ensures Of(AggregateStack(m, aggregated), key) == Of(m, key) && Steady(m, AggregateStack(m, aggregated))
  {
    hide Roomy, Replayed;
  }

  lemma ConcludeOf(m: Manager, ev: TraceEvent, key: Key)
    requires ev.key.pid in m.pids
    ensures Of(Conclude(m, ev), key) == Of(m, key) && Steady(m, Conclude(m, ev))
  {
    hide Roomy, AggregateStack;
    AggregateOf(Touch(m, ev.key.pid), ev.key, key);
  }

  lemma TouchAgainOf(m: Manager, pid: int, key: Key)
    requires pid in m.pids
    ensures Of(Touch(m, pid), key) == Of(m, key) && Steady(m, Touch(m, pid))
  {
  }

  /** Handling an event is `Step` for its own goroutine and changes no other, except that adaptive
   *  mode may leave a goroutine with nothing, and then only by dropping a stack over budget,
   *  evicting a process, or going on to ignore a suppressed goroutine. */
  lemma HandleOf(m: Manager, ev: TraceEvent, key: Key)
    requires Silenced(m.pids, m.suppressed) && AllTidy(m)
    ensures var was, now := Of(m, key), Of(Handled(m, ev), key);
            var expected := if key == ev.key then Step(m.config, was, ev) else was;
            || now == expected
            || (now == NOTHING && (Costs(m, Handled(m, ev)) || (m.config.adaptive && key == ev.key && key in m.suppressed)))
    ensures Grown(m, Handled(m, ev))
  {
    hide DropStack, Add, Touch, Conclude, Fresh, Ignores, Taken, Silenced, AllTidy;
    var u := m.(suppressed := m.suppressed - {ev.key});
    UnsuppressedOf(m, u.suppressed, key);
    DropOf(u, ev.key, key);
    AddOf(m, ev, key);
    var a := Add(m, ev);
    if !ev.location.GoroutineExit? && !(m.config.adaptive && ev.flags.abort) && a.kept {
      TouchAgainOf(a.manager, ev.key.pid, key);
      TouchAgainOf(a.manager, ev.key.pid, ev.key);
      var c := Touch(a.manager, ev.key.pid);
      ConcludeOf(c, ev, key);
      DropOf(Conclude(c, ev), ev.key, key);
    }
  }

  lemma {:induction false} RunTidy(config: Config, evs: seq<TraceEvent>)
    ensures AllTidy(HandledAll(NewManager(config), evs))
  {
    hide Handled, Step;
    if evs != [] {
      var m, after := HandledAll(NewManager(config), evs[..|evs| - 1]), HandledAll(NewManager(config), evs);
      RunTidy(config, evs[..|evs| - 1]);
      MemoryAccountingIsExact(config, evs[..|evs| - 1]);
      forall key
        ensures Tidy(Of(after, key))
      {
        HandleOf(m, evs[|evs| - 1], key);
        StepTidy(config, Of(m, key), evs[|evs| - 1]);
      }
    }
  }

  // ---- interleaving ----

  /** The events of one goroutine, in order. */
  function Only(evs: seq<TraceEvent>, key: Key): seq<TraceEvent>
  {
    if evs == [] then []
    else
      var rest := Only(evs[..|evs| - 1], key);
      if evs[|evs| - 1].key == key then rest + [evs[|evs| - 1]] else rest
  }

  /** A goroutine handled all by itself. */
  function StepAll(config: Config, evs: seq<TraceEvent>): Goroutine
  {
    if evs == [] then NOTHING else Step(config, StepAll(config, evs[..|evs| - 1]), evs[|evs| - 1])
  }

  lemma {:induction false} RunOf(config: Config, evs: seq<TraceEvent>, key: Key)
    requires !config.adaptive
    ensures Of(HandledAll(NewManager(config), evs), key) == StepAll(config, Only(evs, key))
  {
    hide Handled, Step;
    if evs != [] {
      var before, ev := evs[..|evs| - 1], evs[|evs| - 1];
      RunOf(config, before, key);
      MemoryAccountingIsExact(config, before);
      RunTidy(config, before);
      HandleOf(HandledAll(NewManager(config), before), ev, key);
      assert (Only(before, key) + [ev])[..|Only(before, key)|] == Only(before, key);
    }
  }

  lemma {:induction false} OnlyTwice(evs: seq<TraceEvent>, key: Key)
    ensures Only(Only(evs, key), key) == Only(evs, key)
  {
    if evs != [] {
      OnlyTwice(evs[..|evs| - 1], key);
      var rest := Only(evs[..|evs| - 1], key);
      assert (rest + [evs[|evs| - 1]])[..|rest|] == rest;
    }
  }

  /** Interleaving does not matter. Without adaptive mode, whatever the order in which the events
   *  of different goroutines arrive, what is retained of each, its observed stack and its invalid
   *  mark are those left by its own events alone. */
  lemma InterleavingDoesNotMatter(config: Config, evs: seq<TraceEvent>, key: Key)
    requires !config.adaptive
    ensures Of(HandledAll(NewManager(config), evs), key)
         == Of(HandledAll(NewManager(config), Only(evs, key)), key)
  {
    RunOf(config, evs, key);
    RunOf(config, Only(evs, key), key);
    OnlyTwice(evs, key);
  }
}
