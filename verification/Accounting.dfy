/** The memory budget of adaptive mode is accounted for exactly, after any stream of events. */
module Accounting {
  import opened TraceEvents
  import opened ManagerState

  /** Every retained event of every goroutine of every process. */
  function Slots(pids: map<int, Process>): set<Slot>
  {
    set p, g, i | p in pids && g in pids[p].goEvents && 0 <= i < |pids[p].goEvents[g]| :: Slot(p, g, i)
  }

  ghost predicate Counted(m: Manager)
  {
    if m.config.adaptive then m.pending == |Slots(m.pids)| <= m.config.maxPending
    else m.pending == 0
  }

  /** No suppressed goroutine holds an event. */
  ghost predicate Silenced(pids: map<int, Process>, suppressed: set<Key>)
  {
    forall k <- suppressed :: k.pid in pids ==> pids[k.pid].Events(k.goid) == []
  }

  ghost predicate Accounted(m: Manager)
  {
    && Counted(m)
    && (m.config.adaptive ==> |m.pids| <= MAX_PIDS)
    && |m.suppressed| <= MAX_SUPPRESSED && (!m.config.adaptive ==> m.suppressed == {})
    && Silenced(m.pids, m.suppressed)
    && m.droppedStacks == m.droppedIncomplete + m.droppedAborted + m.droppedOverBudget
  }

  // ---- slots ----

  lemma SlotsUpdate(pids: map<int, Process>, p: int, s: Process)
    requires p in pids
    ensures Slots(pids[p := s]) == (Slots(pids) - SlotsOf(p, pids[p])) + SlotsOf(p, s)
    ensures SlotsOf(p, pids[p]) <= Slots(pids)
  {
  }

  lemma SlotsRemove(pids: map<int, Process>, p: int)
    requires p in pids
    ensures |Slots(pids - {p})| == |Slots(pids)| - |SlotsOf(p, pids[p])|
  {
    SlotsUpdate(pids, p, pids[p]);
    assert Slots(pids - {p}) == Slots(pids) - SlotsOf(p, pids[p]);
  }

  lemma SlotsSame(pids: map<int, Process>, p: int, s: Process)
    requires p in pids && SlotsOf(p, s) == SlotsOf(p, pids[p])
    ensures Slots(pids[p := s]) == Slots(pids)
  {
    SlotsUpdate(pids, p, s);
  }

  lemma SlotsInsert(pids: map<int, Process>, p: int, now: int)
    requires p !in pids
    ensures Slots(pids[p := NewProcess(now)]) == Slots(pids)
  {
  }

  lemma SlotsDrop(pids: map<int, Process>, key: Key)
    requires key.pid in pids
    ensures var s := pids[key.pid];
            |Slots(pids[key.pid := s.Without(key.goid)])| == |Slots(pids)| - |s.Events(key.goid)|
  {
    var s := pids[key.pid];
    var row := Row(key.pid, key.goid, |s.Events(key.goid)|);
    RowSize(key.pid, key.goid, |s.Events(key.goid)|);
    assert SlotsOf(key.pid, s.Without(key.goid)) == SlotsOf(key.pid, s) - row;
    assert row <= SlotsOf(key.pid, s);
    SlotsUpdate(pids, key.pid, s.Without(key.goid));
    assert Slots(pids[key.pid := s.Without(key.goid)]) == Slots(pids) - row;
  }

  lemma ObserveKeepsEvents(config: Config, s: Process, ev: TraceEvent, probe: Probe)
    ensures Observe(config, s, ev, probe).goEvents == s.goEvents
  {
  }

  lemma SlotsAppend(config: Config, pids: map<int, Process>, ev: TraceEvent, probe: Probe)
    requires ev.key.pid in pids
    ensures |Slots(pids[ev.key.pid := Append(config, pids[ev.key.pid], ev, probe)])| == |Slots(pids)| + 1
  {
    hide Observe;
    var p, s := ev.key.pid, pids[ev.key.pid];
    var t := Append(config, s, ev, probe);
    var es := s.Events(ev.key.goid);
    var added := Slot(p, ev.key.goid, |es|);
    ObserveKeepsEvents(config, s.(goEvents := s.goEvents[ev.key.goid := es + [Retained(ev, probe, ev.text)]]), ev, probe);
    assert SlotsOf(p, t) == SlotsOf(p, s) + {added};
    SlotsUpdate(pids, p, t);
    assert added !in Slots(pids);
    assert Slots(pids[p := t]) == Slots(pids) + {added};
  }

  lemma SlotsReplace(pids: map<int, Process>, ev: TraceEvent)
    requires ev.key.pid in pids && pids[ev.key.pid].Events(ev.key.goid) != []
    ensures Slots(pids[ev.key.pid := Replace(pids[ev.key.pid], ev)]) == Slots(pids)
  {
    var s := pids[ev.key.pid];
    assert SlotsOf(ev.key.pid, Replace(s, ev)) == SlotsOf(ev.key.pid, s);
    SlotsSame(pids, ev.key.pid, Replace(s, ev));
  }

  // ---- each operation ----

  lemma EvictKeeps(m: Manager)
    requires Accounted(m) && m.config.adaptive && m.pids != map[]
    ensures Accounted(Evict(m)) && |Evict(m).pids| == |m.pids| - 1
  {
    var p := Oldest(m.pids);
    SlotsRemove(m.pids, p);
    assert (m.pids - {p}).Keys == m.pids.Keys - {p};
    SubsetSize(Evict(m).suppressed, m.suppressed);
  }

  lemma {:induction false} SubsetSize(a: set<Key>, b: set<Key>)
    requires a <= b
    ensures |a| <= |b|
  {
    assert b == a + (b - a);
  }

  lemma RoomyKeeps(m: Manager)
    requires Accounted(m)
    ensures var e := Roomy(m);
            && Accounted(e) && e.config == m.config && e.pids.Keys <= m.pids.Keys
            && (m.config.adaptive ==> |e.pids| < MAX_PIDS)
  {
    hide Slots, SlotsOf;
    if m.config.adaptive && |m.pids| >= MAX_PIDS {
      EvictKeeps(m);
      assert Evict(m).pids == m.pids - {Oldest(m.pids)};
    }
  }

  lemma InsertKeeps(m: Manager, pid: int, now: int)
    requires Accounted(m) && pid !in m.pids && (m.config.adaptive ==> |m.pids| < MAX_PIDS)
    ensures Accounted(m.(pids := m.pids[pid := NewProcess(now)]))
  {
    hide Slots, SlotsOf;
    SlotsInsert(m.pids, pid, now);
    assert m.pids[pid := NewProcess(now)].Keys == m.pids.Keys + {pid};
  }

  lemma TouchKeeps(m: Manager, pid: int)
    requires Accounted(m)
    ensures Accounted(Touch(m, pid))
  {
    hide Roomy, Slots, SlotsOf;
    var now := m.seqNo + 1;
    var r := m.(seqNo := now, requests := m.requests + [pid]);
    if pid in m.pids {
      SeenSlots(pid, m.pids[pid], now);
      SlotsSame(m.pids, pid, m.pids[pid].(lastSeen := now));
      assert m.pids[pid := m.pids[pid].(lastSeen := now)].Keys == m.pids.Keys;
    } else {
      RoomyKeeps(r);
      InsertKeeps(Roomy(r), pid, now);
    }
  }

  lemma SeenSlots(pid: int, s: Process, now: int)
    ensures SlotsOf(pid, s.(lastSeen := now)) == SlotsOf(pid, s)
  {
  }

  lemma DropKeeps(m: Manager, key: Key)
    requires Accounted(m)
    ensures Accounted(DropStack(m, key))
  {
    hide Slots;
    if key.pid in m.pids {
      SlotsDrop(m.pids, key);
      assert DropStack(m, key).pids.Keys == m.pids.Keys;
    }
  }

  lemma DropEmpties(m: Manager, key: Key)
    ensures key.pid in DropStack(m, key).pids ==> DropStack(m, key).pids[key.pid].Events(key.goid) == []
  {
  }

  lemma ResetKeeps(m: Manager, ev: TraceEvent)
    requires Accounted(m)
    ensures Accounted(ResetStale(m, ev))
  {
    DropKeeps(m, ev.key);
  }

  lemma OverBudgetKeeps(m: Manager, ev: TraceEvent)
    requires Accounted(m) && m.config.adaptive
    ensures Accounted(OverBudget(m, ev))
  {
    hide Slots;
    DropKeeps(m, ev.key);
    DropEmpties(m, ev.key);
  }

  lemma RetainKeeps(m: Manager, ev: TraceEvent)
    requires Accounted(m) && ev.key !in m.suppressed
    requires m.config.adaptive ==> m.pending < m.config.maxPending
    ensures Accounted(Retain(m, ev).manager)
  {
    hide Slots, Observe, Evict;
    TouchKeeps(m, ev.key.pid);
    TouchLess(m, ev.key.pid);
    var t := Touch(m, ev.key.pid);
    var s := t.pids[ev.key.pid];
    if ev.ip in m.config.probes {
      if s.Events(ev.key.goid) != [] { SlotsReplace(t.pids, ev); }
      SlotsAppend(m.config, t.pids, ev, m.config.probes[ev.ip]);
      var a := Append(m.config, s, ev, m.config.probes[ev.ip]);
      AppendEvents(m.config, s, ev, m.config.probes[ev.ip]);
      assert t.pids[ev.key.pid := a].Keys == t.pids.Keys;
    }
  }

  /** Looking a process up never takes the budget up, nor suppresses anything. */
  lemma TouchLess(m: Manager, pid: int)
    ensures var t := Touch(m, pid); t.config == m.config && t.pending <= m.pending && t.suppressed <= m.suppressed
  {
  }

  /** Appending changes the events of no other goroutine. */
  lemma AppendEvents(config: Config, s: Process, ev: TraceEvent, probe: Probe)
    ensures forall g | g != ev.key.goid :: Append(config, s, ev, probe).Events(g) == s.Events(g)
  {
  }

  lemma AddKeeps(m: Manager, ev: TraceEvent)
    requires Accounted(m)
    ensures Accounted(Add(m, ev).manager)
  {
    hide Counted, Retain, OverBudget, ResetStale;
    if !m.config.adaptive {
      RetainKeeps(m, ev);
    } else {
      ResetKeeps(m, ev);
      var r := ResetStale(m, ev);
      var u := r.(suppressed := r.suppressed - {ev.key});
      SubsetSize(u.suppressed, r.suppressed);
      CountedSame(r, u);
      if u.pending >= u.config.maxPending { OverBudgetKeeps(u, ev); } else { RetainKeeps(u, ev); }
    }
  }

  lemma CountedSame(m: Manager, n: Manager)
    requires Counted(m) && n.config == m.config && n.pending == m.pending && n.pids == m.pids
    ensures Counted(n)
  {
  }

  lemma AggregateKeeps(m: Manager, key: Key)
    requires Accounted(m)
    ensures Accounted(AggregateStack(m, key))
  {
    hide Slots, Replayed;
    TouchKeeps(m, key.pid);
    var t := Touch(m, key.pid);
    var s := t.pids[key.pid];
    var s' := s.(records := s.records + Replayed(s.Events(key.goid)).records);
    RecordsSlots(key.pid, s, s'.records);
    SlotsSame(t.pids, key.pid, s');
    assert t.pids[key.pid := s'].Keys == t.pids.Keys;
  }

  lemma RecordsSlots(pid: int, s: Process, records: seq<CallRecord>)
    ensures SlotsOf(pid, s.(records := records)) == SlotsOf(pid, s)
  {
  }

  lemma ConcludeKeeps(m: Manager, ev: TraceEvent)
    requires Accounted(m)
    ensures Accounted(Conclude(m, ev))
  {
    hide Touch, AggregateStack, Slots;
    TouchKeeps(m, ev.key.pid);
    AggregateKeeps(Touch(m, ev.key.pid), ev.key);
  }

  lemma UnsuppressKeeps(m: Manager, key: Key)
    requires Accounted(m)
    ensures Accounted(m.(suppressed := m.suppressed - {key}))
  {
    SubsetSize(m.suppressed - {key}, m.suppressed);
  }

  lemma HandleKeeps(m: Manager, ev: TraceEvent)
    requires Accounted(m)
    ensures Accounted(Handled(m, ev))
  {
    hide Slots, Touch, DropStack, Add, Conclude, Closes;
    UnsuppressKeeps(m, ev.key);
    DropKeeps(m.(suppressed := m.suppressed - {ev.key}), ev.key);
    AddKeeps(m, ev);
    var a := Add(m, ev).manager;
    TouchKeeps(a, ev.key.pid);
    var c := Touch(a, ev.key.pid);
    ConcludeKeeps(c, ev);
    DropKeeps(Conclude(c, ev), ev.key);
  }

  /** In every reachable state of adaptive mode the budget counter is the number of retained
   *  events and within the budget, at most 64 processes and 10000 suppressed goroutines are
   *  remembered, no suppressed goroutine holds an event, and every dropped stack has exactly one
   *  of three causes. Outside adaptive mode nothing is counted or suppressed. */
  lemma {:induction false} MemoryAccountingIsExact(config: Config, evs: seq<TraceEvent>)
    ensures var m := HandledAll(NewManager(config), evs);
            && (config.adaptive ==> m.pending == |Slots(m.pids)| <= config.maxPending && |m.pids| <= 64)
            && (!config.adaptive ==> m.pending == 0 && m.suppressed == {})
            && |m.suppressed| <= 10000
            && (forall k <- m.suppressed :: k.pid in m.pids ==> m.pids[k.pid].Events(k.goid) == [])
            && m.droppedStacks == m.droppedIncomplete + m.droppedAborted + m.droppedOverBudget
    ensures Accounted(HandledAll(NewManager(config), evs))
  {
    hide Handled;
    if evs == [] {
      StartAccounted(config);
    } else {
      MemoryAccountingIsExact(config, evs[..|evs| - 1]);
      HandleKeeps(HandledAll(NewManager(config), evs[..|evs| - 1]), evs[|evs| - 1]);
    }
  }

  /** The budget is the number of events of 2 KiB that fit a quarter of the memory limit, and at least
   *  one. */
  lemma BudgetIs(memoryLimit: nat)
    ensures var n := Budget(true, memoryLimit);
            && n >= 1 && memoryLimit < (n + 1) * 2048 * 4
            && (n > 1 ==> n * 2048 * 4 <= memoryLimit)
  {
    assert memoryLimit / 4 / 2048 == memoryLimit / 8192;
  }

  lemma StartAccounted(config: Config)
    ensures Accounted(NewManager(config))
  {
    assert Slots(map[]) == {};
  }
}
