/** Kernel and reader agree. Both follow the same sampled goroutine, one with a counter and one with
 *  a stack; in adaptive mode they decide alike which entries are repeats and when a sample ends. */
module Agreement {
  import opened Wrappers
  import opened TraceEvents
  import opened TraceKernel
  import opened ManagerState
  import opened Accounting
  import opened Goroutines
  import Samples

  /** Both sides set up for the same probes; `sites` are the return addresses instrumented. */
  datatype Deployment = Deployment(tables: Tables, config: Config, sites: set<int>)

  ghost predicate Consistent(d: Deployment)
  {
    && d.tables.adaptive && d.config.adaptive
    && (forall r <- d.sites ::
          && r in d.config.probes
          && (r in d.tables.wantedRet <==> d.config.probes[r].entry in d.tables.wanted)
          && (r in d.tables.wantedRet ==> d.tables.wantedRet[r] == d.config.probes[r].entry))
  }

  // ---- what the goroutine really does ----

  /** The instrumented calls a goroutine is inside of, and the entry it has just passed, if its last
   *  probe was an entry. `base` is where the current sample's root call is among the calls. */
  datatype Thread = Thread(calls: seq<int>, entered: Option<TraceEvent>, base: nat)

  const IDLE := Thread([], None, 0)

  /** An entry probe that fires again because the stack was moved. */
  predicate Repeated(t: Thread, h: Hit)
    requires h.Enter?
  {
    t.entered.Some? && t.entered.value.ip == h.ip && t.entered.value.bp != h.callerBp
  }

  /** Once repeats are left out, calls nest: a return is from the innermost call. */
  ghost predicate WellNested(d: Deployment, t: Thread, h: Hit)
  {
    match h
    case Enter(_, ip, _, _, _, _, _, _) => ip in d.config.probes && ip != 0
    case Leave(_, ip, _, _) =>
      ip in d.sites && ip in d.config.probes && t.calls != [] && t.calls[|t.calls| - 1] == d.config.probes[ip].entry
    case Exit(_) => true
  }

  function Moved(t: Thread, h: Hit): Thread
  {
    match h
    case Enter(_, ip, _, _, _, _, _, _) =>
      t.(calls := if Repeated(t, h) then t.calls else t.calls + [ip], entered := Some(EntryEvent(h, 0, NO_FLAGS)))
    case Leave(_, _, _, _) => t.(calls := if t.calls == [] then [] else t.calls[..|t.calls| - 1], entered := None)
    case Exit(_) => IDLE
  }

  /** The goroutine after a probe; a sample that starts has its root on top of the calls. */
  function Advanced(t: Thread, h: Hit, was: Option<TraceState>, now: Option<TraceState>): Thread
  {
    var moved := Moved(t, h);
    if was.None? && now.Some? && moved.calls != [] then moved.(base := |moved.calls| - 1) else moved
  }

  /** The calls of the current sample. */
  function Sample(t: Thread): seq<int>
  {
    if t.base <= |t.calls| then t.calls[t.base..] else []
  }

  function Count(s: seq<int>, x: int): nat
  {
    if s == [] then 0 else Count(s[..|s| - 1], x) + if s[|s| - 1] == x then 1 else 0
  }

  lemma CountSnoc(s: seq<int>, y: int, x: int)
    ensures Count(s + [y], x) == Count(s, x) + if y == x then 1 else 0
  {
    assert (s + [y])[..|s|] == s;
  }

  lemma {:induction false} CountFirst(s: seq<int>)
    requires s != []
    ensures Count(s, s[0]) >= 1
    ensures Count(s, s[0]) == 1 && s[|s| - 1] == s[0] ==> |s| == 1
  {
    if |s| > 1 { CountFirst(s[..|s| - 1]); }
  }

  // ---- the kernel's side ----

  /** `root_depth` counts the root's frames in the sample; `last_ip` and `last_bp` are the last
   *  entry's, or 0 after a return. */
  ghost predicate Tracks(d: Deployment, k: TraceState, t: Thread)
  {
    && t.base < |t.calls|
    && k.rootIp == t.calls[t.base] && k.rootIp in d.tables.wanted
    && k.rootDepth == Count(Sample(t), k.rootIp)
    && (if t.entered.Some? then k.lastIp == t.entered.value.ip != 0 && k.lastBp == t.entered.value.bp else k.lastIp == 0)
  }

  /** What the last probe left behind is on top of the calls. */
  ghost predicate Consequent(t: Thread)
  {
    t.entered.Some? ==> t.entered.value.ip != 0 && t.calls != [] && t.calls[|t.calls| - 1] == t.entered.value.ip
  }

  ghost predicate KernelRight(d: Deployment, k: Option<TraceState>, t: Thread)
  {
    Consequent(t) && (k.Some? ==> Tracks(d, k.value, t))
  }

  lemma AdmitKeeps(d: Deployment, t: Thread, h: Hit, room: bool)
    requires Consistent(d) && KernelRight(d, None, t) && h.Enter? && WellNested(d, t, h)
    ensures var r := React(d.tables, None, h, room);
            KernelRight(d, r.state, Advanced(t, h, None, r.state))
  {
    var t' := Advanced(t, h, None, Admit(d.tables, h, true).state);
    if Admit(d.tables, h, true) != SILENCE {
      assert Sample(t') == [h.ip];
      assert Count([h.ip], h.ip) == 1 + Count([], h.ip) by { CountSnoc([], h.ip, h.ip); assert [] + [h.ip] == [h.ip]; }
    }
  }

  lemma EntryKeeps(d: Deployment, k: TraceState, t: Thread, h: Hit)
    requires Consistent(d) && KernelRight(d, Some(k), t) && h.Enter? && WellNested(d, t, h)
    ensures Repeats(k, h) == Repeated(t, h)
    ensures var r := FollowEntry(d.tables, k, h);
            KernelRight(d, r.state, Advanced(t, h, Some(k), r.state))
  {
    var t' := Moved(t, h);
    if !Repeated(t, h) {
      assert Sample(t') == Sample(t) + [h.ip];
      CountSnoc(Sample(t), h.ip, k.rootIp);
    }
  }

  /** The sample ends exactly when its root call returns. */
  lemma ReturnKeeps(d: Deployment, k: TraceState, t: Thread, h: Hit)
    requires Consistent(d) && KernelRight(d, Some(k), t) && h.Leave? && WellNested(d, t, h)
    ensures var r := FollowReturn(d.tables, k, h);
            && KernelRight(d, r.state, Advanced(t, h, Some(k), r.state))
            && (!Overflows(d.tables, k) ==> (r.event.value.flags.end <==> Sample(Moved(t, h)) == []))
            && (r.state.None? <==> r.event.value.flags.end || r.event.value.flags.abort)
  {
    var s := Sample(t);
    var n := |s| - 1;
    assert s == t.calls[t.base..] && s[0] == k.rootIp && s[n] == t.calls[|t.calls| - 1];
    assert s == s[..n] + [s[n]];
    CountSnoc(s[..n], s[n], k.rootIp);
    CountFirst(s);
    if n > 0 { CountFirst(s[..n]); }
    assert t.calls[..|t.calls| - 1][t.base..] == s[..n];
    assert Sample(Moved(t, h)) == s[..n];
  }

  lemma KernelStep(d: Deployment, k: Option<TraceState>, t: Thread, h: Hit, room: bool)
    requires Consistent(d) && KernelRight(d, k, t) && WellNested(d, t, h)
    ensures var r := React(d.tables, k, h, room);
            KernelRight(d, r.state, Advanced(t, h, k, r.state))
  {
    hide KernelRight, Consistent, WellNested, FollowEntry, FollowReturn, Admit, Advanced;
    match h
    case Enter(_, _, _, _, _, _, _, _) =>
      if k.None? { AdmitKeeps(d, t, h, room); } else { EntryKeeps(d, k.value, t, h); }
    case Leave(_, _, _, _) =>
      if k.None? { LeaveKeeps(d, t, h); } else { ReturnKeeps(d, k.value, t, h); }
    case Exit(_) => ExitKeeps(d, k, t, h);
  }

  lemma LeaveKeeps(d: Deployment, t: Thread, h: Hit)
    requires KernelRight(d, None, t) && h.Leave? && WellNested(d, t, h)
    ensures KernelRight(d, None, Advanced(t, h, None, None))
  {
  }

  lemma ExitKeeps(d: Deployment, k: Option<TraceState>, t: Thread, h: Hit)
    requires h.Exit?
    ensures KernelRight(d, None, Advanced(t, h, k, None))
  {
  }

  // ---- the reader's side ----

  /** If the reader holds anything of the goroutine, the kernel is following it, the observed stack
   *  is the calls of the sample, and the last retained event is what the kernel remembers. */
  ghost predicate ReaderRight(k: Option<TraceState>, t: Thread, g: Goroutine)
  {
    g.events != [] ==>
      && k.Some? && t.base < |t.calls| && g.stack == Sample(t) && !g.invalid
      && (match Last(g).location
          case Entry => t.entered.Some? && Last(g).ip == t.entered.value.ip && Last(g).bp == t.entered.value.bp
          case Ret => t.entered.None? && Last(g).bp == 0
          case GoroutineExit => false)
  }

  /** The reader holds a sample exactly while the kernel follows the goroutine. */
  ghost predicate Mutual(k: Option<TraceState>, g: Goroutine)
  {
    k.Some? <==> g.events != []
  }

  /** The reader on the event a probe sends. */
  function Read(d: Deployment, g: Goroutine, r: Reaction): Goroutine
  {
    if r.event.None? then g else Step(d.config, g, r.event.value)
  }

  lemma ReadStart(d: Deployment, t: Thread, g: Goroutine, h: Hit, room: bool)
    requires Consistent(d) && KernelRight(d, None, t) && ReaderRight(None, t, g) && Tidy(g)
    requires h.Enter? && WellNested(d, t, h)
    ensures var r := Admit(d.tables, h, room);
            && ReaderRight(r.state, Advanced(t, h, None, r.state), Read(d, g, r))
            && (Mutual(None, g) ==> Mutual(r.state, Read(d, g, r)))
  {
    assert g == NOTHING;
    var r := Admit(d.tables, h, room);
    if r.event.Some? {
      var t' := Advanced(t, h, None, r.state);
      assert Sample(t') == [h.ip] && g.stack + [h.ip] == [h.ip];
    }
  }

  /** Both sides make the same decision on repeats. */
  lemma SameRepeats(d: Deployment, k: TraceState, t: Thread, g: Goroutine, h: Hit)
    requires KernelRight(d, Some(k), t) && ReaderRight(Some(k), t, g) && g.events != []
    requires h.Enter? && h.ip != 0
    ensures Repeats(k, h) == Repeated(t, h) == IsDuplicate(Last(g), FollowEntry(d.tables, k, h).event.value)
  {
  }

  lemma ReadEntry(d: Deployment, k: TraceState, t: Thread, g: Goroutine, h: Hit)
    requires Consistent(d) && KernelRight(d, Some(k), t) && ReaderRight(Some(k), t, g) && Tidy(g)
    requires h.Enter? && WellNested(d, t, h)
    ensures var r := FollowEntry(d.tables, k, h);
            && ReaderRight(r.state, Advanced(t, h, Some(k), r.state), Read(d, g, r))
            && (Mutual(Some(k), g) ==> Mutual(r.state, Read(d, g, r)))
  {
    var r := FollowEntry(d.tables, k, h);
    if g.events != [] && !Overflows(d.tables, k) {
      SameRepeats(d, k, t, g, h);
      var t' := Moved(t, h);
      if !Repeated(t, h) { assert Sample(t') == Sample(t) + [h.ip]; }
    }
  }

  lemma ReadReturn(d: Deployment, k: TraceState, t: Thread, g: Goroutine, h: Hit)
    requires Consistent(d) && KernelRight(d, Some(k), t) && ReaderRight(Some(k), t, g) && Tidy(g)
    requires h.Leave? && WellNested(d, t, h)
    ensures var r := FollowReturn(d.tables, k, h);
            && ReaderRight(r.state, Advanced(t, h, Some(k), r.state), Read(d, g, r))
            && (Mutual(Some(k), g) ==> Mutual(r.state, Read(d, g, r)))
  {
    ReturnKeeps(d, k, t, h);
    if g.events != [] && !Overflows(d.tables, k) {
      var s := Sample(t);
      assert s[|s| - 1] == t.calls[|t.calls| - 1];
      assert Sample(Moved(t, h)) == s[..|s| - 1];
    }
  }

  /** A retained sample that the kernel ends is left with an empty stack, and only then. */
  lemma EndIsEmpty(d: Deployment, k: TraceState, t: Thread, g: Goroutine, h: Hit)
    requires Consistent(d) && KernelRight(d, Some(k), t) && ReaderRight(Some(k), t, g) && g.events != []
    requires h.Leave? && WellNested(d, t, h) && !Overflows(d.tables, k)
    ensures var ev := FollowReturn(d.tables, k, h).event.value;
            var after := Taken(d.config, g, ev);
            && !Ignores(d.config, g, ev) && Fresh(d.config, g, ev) == g
            && (ev.flags.end <==> after.stack == [])
            && (Ends(d.config, after, ev) <==> ev.flags.end)
            && !after.invalid
  {
    ReturnKeeps(d, k, t, h);
    var s := Sample(t);
    assert s[|s| - 1] == t.calls[|t.calls| - 1];
    assert t.calls[..|t.calls| - 1][t.base..] == s[..|s| - 1];
    assert Sample(Moved(t, h)) == s[..|s| - 1];
  }

  /** Both sides, on one goroutine. */
  ghost predicate Linked(d: Deployment, k: Option<TraceState>, t: Thread, g: Goroutine)
  {
    KernelRight(d, k, t) && ReaderRight(k, t, g)
  }

  /** One probe, its event handled at once. */
  lemma LinkedStep(d: Deployment, k: Option<TraceState>, t: Thread, g: Goroutine, h: Hit, room: bool)
    requires Consistent(d) && Linked(d, k, t, g) && Tidy(g) && WellNested(d, t, h)
    ensures var r := React(d.tables, k, h, room);
            && Linked(d, r.state, Advanced(t, h, k, r.state), Read(d, g, r))
            && (Mutual(k, g) ==> Mutual(r.state, Read(d, g, r)))
  {
    hide KernelRight, ReaderRight, Consistent, WellNested, FollowEntry, FollowReturn, Admit, Advanced, Read;
    KernelStep(d, k, t, h, room);
    match h
    case Enter(_, _, _, _, _, _, _, _) =>
      if k.None? { ReadStart(d, t, g, h, room); } else { ReadEntry(d, k.value, t, g, h); }
    case Leave(_, _, _, _) =>
      if k.None? { ReadNothing(d, t, g, h); } else { ReadReturn(d, k.value, t, g, h); }
    case Exit(_) => if k.None? { ReadNothing(d, t, g, h); } else { ReadExit(d, k.value, t, g, h); }
  }

  lemma ReadNothing(d: Deployment, t: Thread, g: Goroutine, h: Hit)
    requires ReaderRight(None, t, g)
    ensures ReaderRight(None, Advanced(t, h, None, None), Read(d, g, SILENCE)) && Read(d, g, SILENCE) == g
  {
  }

  lemma ReadExit(d: Deployment, k: TraceState, t: Thread, g: Goroutine, h: Hit)
    requires h.Exit?
    ensures var r := React(d.tables, Some(k), h, true);
            ReaderRight(r.state, Advanced(t, h, Some(k), r.state), Read(d, g, r)) && Read(d, g, r) == NOTHING
  {
  }

  // ---- the whole system ----

  /** Every goroutine's kernel state and true calls, and the reader, which has handled every event
   *  sent so far, in order. */
  datatype System = System(states: map<Key, TraceState>, threads: map<Key, Thread>, sent: seq<TraceEvent>)

  function ThreadOf(s: System, key: Key): Thread
  {
    if key in s.threads then s.threads[key] else IDLE
  }

  function Fire(d: Deployment, s: System, h: Hit): System
  {
    var r := Reacts(d.tables, s.states, h);
    System(Stored(s.states, h.key, r.state),
           s.threads[h.key := Advanced(ThreadOf(s, h.key), h, Find(s.states, h.key), r.state)],
           if r.event.Some? then s.sent + [r.event.value] else s.sent)
  }

  function Ran(d: Deployment, hits: seq<Hit>): System
  {
    if hits == [] then System(map[], map[], []) else Fire(d, Ran(d, hits[..|hits| - 1]), hits[|hits| - 1])
  }

  /** Every goroutine's own probes nest; the goroutines interleave in any way. */
  ghost predicate WellRun(d: Deployment, hits: seq<Hit>)
  {
    hits != [] ==>
      var before, h := hits[..|hits| - 1], hits[|hits| - 1];
      WellRun(d, before) && WellNested(d, ThreadOf(Ran(d, before), h.key), h)
  }

  ghost function Reader(d: Deployment, s: System): Manager
  {
    HandledAll(NewManager(d.config), s.sent)
  }

  /** Nothing was given up for want of memory. */
  ghost predicate Spared(m: Manager)
  {
    m.droppedOverBudget == 0 && m.evicted == 0
  }

  ghost predicate LinkedAt(d: Deployment, s: System, key: Key)
  {
    && Linked(d, Find(s.states, key), ThreadOf(s, key), Of(Reader(d, s), key))
    && (Spared(Reader(d, s)) ==> Mutual(Find(s.states, key), Of(Reader(d, s), key)))
  }

  lemma SentSnoc(d: Deployment, sent: seq<TraceEvent>, ev: TraceEvent)
    ensures HandledAll(NewManager(d.config), sent + [ev]) == Handled(HandledAll(NewManager(d.config), sent), ev)
  {
    assert (sent + [ev])[..|sent|] == sent;
  }

  lemma LinkedLost(d: Deployment, k: Option<TraceState>, t: Thread, g: Goroutine)
    requires Linked(d, k, t, g)
    ensures Linked(d, k, t, NOTHING)
  {
  }

  lemma TidyAt(m: Manager, key: Key)
    requires AllTidy(m)
    ensures Tidy(Of(m, key))
  {
  }

  /** Only a stack over budget gets a goroutine suppressed. */
  ghost predicate Quieter(m: Manager, n: Manager)
  {
    n.suppressed <= m.suppressed && n.droppedOverBudget == m.droppedOverBudget
  }

  lemma TouchQuieter(m: Manager, pid: int)
    ensures Quieter(m, Touch(m, pid))
  {
  }

  lemma DropQuieter(m: Manager, key: Key)
    ensures Quieter(m, DropStack(m, key))
  {
  }

  lemma ConcludeQuieter(m: Manager, ev: TraceEvent)
    ensures Quieter(m, Conclude(m, ev))
  {
    hide Touch, Replayed;
    TouchQuieter(m, ev.key.pid);
    TouchQuieter(Touch(m, ev.key.pid), ev.key.pid);
  }

  lemma AddQuieter(m: Manager, ev: TraceEvent)
    ensures Add(m, ev).manager.droppedOverBudget > m.droppedOverBudget || Quieter(m, Add(m, ev).manager)
  {
    hide Touch, DropStack;
    DropQuieter(m, ev.key);
    TouchQuieter(m, ev.key.pid);
    var r := ResetStale(m, ev);
    var u := r.(suppressed := r.suppressed - {ev.key});
    DropQuieter(u, ev.key);
    TouchQuieter(u, ev.key.pid);
  }

  lemma HandleQuieter(m: Manager, ev: TraceEvent)
    ensures Handled(m, ev).droppedOverBudget > m.droppedOverBudget || Quieter(m, Handled(m, ev))
  {
    hide Touch, DropStack, Add, Conclude, Closes;
    var u := m.(suppressed := m.suppressed - {ev.key});
    DropQuieter(u, ev.key);
    AddQuieter(m, ev);
    var a := Add(m, ev).manager;
    TouchQuieter(a, ev.key.pid);
    var c := Touch(a, ev.key.pid);
    ConcludeQuieter(c, ev);
    DropQuieter(Conclude(c, ev), ev.key);
  }

  lemma {:induction false} NoneSuppressed(config: Config, evs: seq<TraceEvent>)
    ensures var m := HandledAll(NewManager(config), evs); m.droppedOverBudget == 0 ==> m.suppressed == {}
  {
    hide Handled;
    if evs != [] {
      NoneSuppressed(config, evs[..|evs| - 1]);
      HandleQuieter(HandledAll(NewManager(config), evs[..|evs| - 1]), evs[|evs| - 1]);
    }
  }

  lemma ReactKey(tables: Tables, k: Option<TraceState>, h: Hit, room: bool)
    ensures var e := React(tables, k, h, room).event; e.Some? ==> e.value.key == h.key
  {
  }

  /** What the event did to the goroutine in the reader: as one goroutine says, or it was lost. */
  lemma ReaderStep(d: Deployment, s: System, h: Hit, key: Key)
    requires Consistent(d)
    ensures var g := Of(Reader(d, s), key);
            var r := Reacts(d.tables, s.states, h);
            var now, expected := Of(Reader(d, Fire(d, s, h)), key), if key == h.key then Read(d, g, r) else g;
            && Grown(Reader(d, s), Reader(d, Fire(d, s, h)))
            && (now == expected || (now == NOTHING && !Spared(Reader(d, Fire(d, s, h)))))
  {
    hide Consistent, React, Advanced, Handled, HandledAll, Silenced, AllTidy, Stored, Step;
    var r := Reacts(d.tables, s.states, h);
    if r.event.Some? {
      ReactKey(d.tables, Find(s.states, h.key), h, |s.states| < MAX_TRACED);
      RunTidy(d.config, s.sent);
      MemoryAccountingIsExact(d.config, s.sent);
      NoneSuppressed(d.config, s.sent);
      SentSnoc(d, s.sent, r.event.value);
      HandleOf(Reader(d, s), r.event.value, key);
    }
  }

  lemma FireLinked(d: Deployment, s: System, h: Hit, key: Key)
    requires Consistent(d) && WellNested(d, ThreadOf(s, h.key), h) && LinkedAt(d, s, key)
    ensures LinkedAt(d, Fire(d, s, h), key)
  {
    hide Linked, Mutual, Consistent, WellNested, React, Advanced, Reader, Stored, Read, Tidy;
    var g := Of(Reader(d, s), key);
    var r := Reacts(d.tables, s.states, h);
    FindStored(s.states, h.key, r.state, key);
    ReaderStep(d, s, h, key);
    RunTidyAt(d, s, key);
    if key == h.key {
      LinkedStep(d, Find(s.states, key), ThreadOf(s, key), g, h, |s.states| < MAX_TRACED);
      LinkedLost(d, r.state, ThreadOf(Fire(d, s, h), key), Read(d, g, r));
    } else {
      LinkedLost(d, Find(s.states, key), ThreadOf(s, key), g);
    }
  }

  lemma RunTidyAt(d: Deployment, s: System, key: Key)
    ensures Tidy(Of(Reader(d, s), key))
  {
    hide HandledAll;
    RunTidy(d.config, s.sent);
    TidyAt(Reader(d, s), key);
  }

  lemma {:induction false} RunLinked(d: Deployment, hits: seq<Hit>, key: Key)
    requires Consistent(d) && WellRun(d, hits)
    ensures LinkedAt(d, Ran(d, hits), key)
  {
    if hits != [] {
      hide Fire, LinkedAt, WellNested;
      RunLinked(d, hits[..|hits| - 1], key);
      FireLinked(d, Ran(d, hits[..|hits| - 1]), hits[|hits| - 1], key);
    } else {
      StartLinked(d, key);
    }
  }

  lemma StartLinked(d: Deployment, key: Key)
    ensures LinkedAt(d, System(map[], map[], []), key)
  {
  }

  // ---- what follows ----

  /** In every well nested run, however the goroutines interleave and whatever was aborted, dropped
   *  over budget or evicted: `root_depth` is the number of the root's frames among the calls of the
   *  sample, and wherever the reader holds anything of a goroutine, the kernel is following it, the
   *  observed stack is exactly the calls of the sample, and so `root_depth` is the number of the
   *  root's frames on it. If nothing was given up, the reader holds a sample exactly while the
   *  kernel follows the goroutine. */
  lemma DepthAgrees(d: Deployment, hits: seq<Hit>, key: Key)
    requires Consistent(d) && WellRun(d, hits)
    ensures var s := Ran(d, hits);
            var t, g := ThreadOf(s, key), Of(Reader(d, s), key);
            && (key in s.states ==> s.states[key].rootDepth == Count(Sample(t), s.states[key].rootIp))
            && (g.events != [] ==>
                  && key in s.states && !g.invalid && g.stack == Sample(t) != []
                  && g.stack[0] == s.states[key].rootIp
                  && s.states[key].rootDepth == Count(g.stack, s.states[key].rootIp))
            && (Spared(Reader(d, s)) ==> (key in s.states <==> g.events != []))
  {
    hide Reader, Ran, WellRun, Consistent, Count;
    RunLinked(d, hits, key);
  }

  /** On the next probe both sides decide alike: an entry is a repeat for the one exactly if it is
   *  for the other; and, unless the sample is cut off for its length, a return carries the end mark
   *  exactly if it leaves the reader's stack empty, which is also when the reader closes it. */
  lemma DecisionsAgree(d: Deployment, hits: seq<Hit>, h: Hit)
    requires Consistent(d) && WellRun(d, hits + [h])
    requires Of(Reader(d, Ran(d, hits)), h.key).events != []
    ensures var s := Ran(d, hits);
            var g := Of(Reader(d, s), h.key);
            var r := Reacts(d.tables, s.states, h);
            && h.key in s.states && r.event.Some?
            && (h.Enter? ==> Repeats(s.states[h.key], h) == IsDuplicate(Last(g), r.event.value))
            && (h.Leave? && !Overflows(d.tables, s.states[h.key]) ==>
                  && !Ignores(d.config, g, r.event.value) && !r.event.value.flags.abort
                  && (r.event.value.flags.end <==> Taken(d.config, g, r.event.value).stack == [])
                  && (Ends(d.config, Taken(d.config, g, r.event.value), r.event.value) <==> r.event.value.flags.end)
                  && (r.event.value.flags.end <==> Reacts(d.tables, s.states, h).state.None?))
  {
    hide Reader, Ran, Consistent, Taken, Ignores, KernelRight, ReaderRight, Overflows;
    LastStep(d, hits, h);
    RunLinked(d, hits, h.key);
    var s := Ran(d, hits);
    var t, g := ThreadOf(s, h.key), Of(Reader(d, s), h.key);
    HeldIsFollowed(Find(s.states, h.key), t, g);
    if h.Enter? {
      SameRepeats(d, s.states[h.key], t, g, h);
    } else if h.Leave? && !Overflows(d.tables, s.states[h.key]) {
      ReturnKeeps(d, s.states[h.key], t, h);
      EndIsEmpty(d, s.states[h.key], t, g, h);
    }
  }

  lemma LastStep(d: Deployment, hits: seq<Hit>, h: Hit)
    requires WellRun(d, hits + [h])
    ensures WellRun(d, hits) && WellNested(d, ThreadOf(Ran(d, hits), h.key), h)
    ensures Ran(d, hits + [h]) == Fire(d, Ran(d, hits), h)
  {
    assert (hits + [h])[..|hits|] == hits;
  }

  lemma HeldIsFollowed(k: Option<TraceState>, t: Thread, g: Goroutine)
    requires ReaderRight(k, t, g) && g.events != []
    ensures k.Some?
  {
  }

  // ---- no sample is incomplete ----

  lemma TouchIncomplete(m: Manager, pid: int)
    ensures Touch(m, pid).droppedIncomplete == m.droppedIncomplete
  {
  }

  lemma DropIncomplete(m: Manager, key: Key)
    ensures DropStack(m, key).droppedIncomplete == m.droppedIncomplete
  {
  }

  lemma AddIncomplete(m: Manager, ev: TraceEvent)
    requires ev.flags.start ==> Of(m, ev.key).events == []
    ensures Add(m, ev).manager.droppedIncomplete == m.droppedIncomplete
  {
    hide Touch, DropStack;
    TouchIncomplete(m, ev.key.pid);
    var u := m.(suppressed := m.suppressed - {ev.key});
    TouchIncomplete(u, ev.key.pid);
    DropIncomplete(u, ev.key);
  }

  lemma HandleIncomplete(m: Manager, ev: TraceEvent)
    requires Silenced(m.pids, m.suppressed) && AllTidy(m)
    requires ev.flags.start ==> Of(m, ev.key).events == []
    requires var g := Of(Add(m, ev).manager, ev.key);
             Add(m, ev).kept && Ends(m.config, g, ev) ==> g.stack == [] && !g.invalid
    ensures Handled(m, ev).droppedIncomplete == m.droppedIncomplete
  {
    hide Touch, DropStack, Add, AllTidy, Silenced, Replayed;
    DropIncomplete(m.(suppressed := m.suppressed - {ev.key}), ev.key);
    AddOf(m, ev, ev.key);
    AddIncomplete(m, ev);
    var a := Add(m, ev);
    if a.kept {
      var a := a.manager;
      TouchIncomplete(a, ev.key.pid);
      TouchAgainOf(a, ev.key.pid, ev.key);
      var c := Touch(a, ev.key.pid);
      TouchIncomplete(c, ev.key.pid);
      TouchAgainOf(c, ev.key.pid, ev.key);
      TouchIncomplete(Touch(c, ev.key.pid), ev.key.pid);
      DropIncomplete(Conclude(c, ev), ev.key);
    }
  }

  /** What a probe sends closes a sample in the reader only when it is complete. */
  lemma SentIsComplete(d: Deployment, k: Option<TraceState>, t: Thread, g: Goroutine, h: Hit, room: bool)
    requires Consistent(d) && Linked(d, k, t, g) && Tidy(g) && WellNested(d, t, h)
    requires React(d.tables, k, h, room).event.Some?
    ensures var ev := React(d.tables, k, h, room).event.value;
            var f := Fresh(d.config, g, ev);
            && (ev.flags.start ==> g.events == [])
            && (!ev.location.GoroutineExit? && !ev.flags.abort && !Ignores(d.config, f, ev)
                && Ends(d.config, Taken(d.config, f, ev), ev) ==>
                  Taken(d.config, f, ev).stack == [] && !Taken(d.config, f, ev).invalid)
            && (ev.flags.end && g.events != [] ==>
                  !ev.location.GoroutineExit? && !ev.flags.abort && !Ignores(d.config, f, ev)
                  && Ends(d.config, Taken(d.config, f, ev), ev))
  {
    hide Consistent, WellNested, KernelRight, ReaderRight;
    if h.Leave? {
      HeldOrNot(k, t, g);
      if g.events != [] && !Overflows(d.tables, k.value) { EndIsEmpty(d, k.value, t, g, h); }
    } else if h.Enter? {
      if k.None? { StartsClean(t, g); } else if g.events != [] { StaysOpen(d, k.value, t, g, h); }
    }
  }

  lemma HeldOrNot(k: Option<TraceState>, t: Thread, g: Goroutine)
    requires ReaderRight(k, t, g)
    ensures g.events != [] ==> k.Some?
  {
  }

  lemma StartsClean(t: Thread, g: Goroutine)
    requires ReaderRight(None, t, g)
    ensures g.events == []
  {
  }

  /** An entry never ends a sample. */
  lemma StaysOpen(d: Deployment, k: TraceState, t: Thread, g: Goroutine, h: Hit)
    requires ReaderRight(Some(k), t, g) && g.events != [] && h.Enter? && WellNested(d, t, h)
    ensures var ev := FollowEntry(d.tables, k, h).event.value;
            Taken(d.config, g, ev).stack != [] && !ev.flags.end && !ev.flags.start
  {
  }

  lemma FireComplete(d: Deployment, s: System, h: Hit)
    requires Consistent(d) && WellNested(d, ThreadOf(s, h.key), h) && LinkedAt(d, s, h.key)
    ensures Reader(d, Fire(d, s, h)).droppedIncomplete == Reader(d, s).droppedIncomplete
  {
    hide WellNested, React, Advanced, Stored, HandledAll, Handled, Linked, Tidy, Silenced, AllTidy, Taken, Ignores, Ends, Fresh, Add;
    var r := Reacts(d.tables, s.states, h);
    if r.event.Some? {
      var m, ev := Reader(d, s), r.event.value;
      ReactKey(d.tables, Find(s.states, h.key), h, |s.states| < MAX_TRACED);
      RunTidy(d.config, s.sent);
      RunTidyAt(d, s, h.key);
      MemoryAccountingIsExact(d.config, s.sent);
      SentSnoc(d, s.sent, ev);
      SentIsComplete(d, Find(s.states, h.key), ThreadOf(s, h.key), Of(m, h.key), h, |s.states| < MAX_TRACED);
      AddOf(m, ev, h.key);
      if ev.location.GoroutineExit? || ev.flags.abort { DroppedWhole(d, m, ev); } else { HandleIncomplete(m, ev); }
    }
  }

  lemma DroppedWhole(d: Deployment, m: Manager, ev: TraceEvent)
    requires m.config.adaptive && (ev.location.GoroutineExit? || ev.flags.abort)
    ensures Handled(m, ev).droppedIncomplete == m.droppedIncomplete
  {
    hide DropStack;
    DropIncomplete(m.(suppressed := m.suppressed - {ev.key}), ev.key);
  }

  /** As long as the queue loses nothing, no sample is ever dropped as incomplete. */
  lemma {:induction false} NothingIsIncomplete(d: Deployment, hits: seq<Hit>)
    requires Consistent(d) && WellRun(d, hits)
    ensures Reader(d, Ran(d, hits)).droppedIncomplete == 0
  {
    if hits != [] {
      hide Fire, LinkedAt, WellNested, Consistent, Reader;
      var before, h := hits[..|hits| - 1], hits[|hits| - 1];
      NothingIsIncomplete(d, before);
      RunLinked(d, before, h.key);
      FireComplete(d, Ran(d, before), h);
    }
  }

  /** And if nothing was given up either, every sample the kernel ends is aggregated, at once and
   *  as a whole. */
  lemma EndedSamplesAreAggregated(d: Deployment, hits: seq<Hit>, h: Hit)
    requires Consistent(d) && WellRun(d, hits + [h]) && d.config.aggregate
    requires var e := Reacts(d.tables, Ran(d, hits).states, h).event; e.Some? && e.value.flags.end
    requires Spared(Reader(d, Ran(d, hits + [h])))
    ensures Samples.Aggregates(Reader(d, Ran(d, hits)), Reacts(d.tables, Ran(d, hits).states, h).event.value)
  {
    hide Ran, HandledAll, Handled, Consistent, WellNested, Stored, Advanced, React, Tidy, Silenced, AllTidy, Taken, Ignores, Ends, Fresh, Add, Linked;
    LastStep(d, hits, h);
    var s := Ran(d, hits);
    var m, ev := Reader(d, s), Reacts(d.tables, s.states, h).event.value;
    RunLinked(d, hits, h.key);
    ReaderStep(d, s, h, h.key);
    RunTidy(d.config, s.sent);
    RunTidyAt(d, s, h.key);
    MemoryAccountingIsExact(d.config, s.sent);
    NoneSuppressed(d.config, s.sent);
    SentSnoc(d, s.sent, ev);
    ReactKey(d.tables, Find(s.states, h.key), h, |s.states| < MAX_TRACED);
    EndsFollowed(d.tables, Find(s.states, h.key), h, |s.states| < MAX_TRACED);
    SentIsComplete(d, Find(s.states, h.key), ThreadOf(s, h.key), Of(m, h.key), h, |s.states| < MAX_TRACED);
    AddOf(m, ev, h.key);
    AddCosts(m, ev);
  }

  lemma EndsFollowed(tables: Tables, k: Option<TraceState>, h: Hit, room: bool)
    requires var e := React(tables, k, h, room).event; e.Some? && e.value.flags.end
    ensures k.Some?
  {
  }

  /** What `Add` gives up, `Handle` has given up. */
  lemma AddCosts(m: Manager, ev: TraceEvent)
    requires Silenced(m.pids, m.suppressed) && AllTidy(m) && !ev.location.GoroutineExit? && !ev.flags.abort
    ensures Grown(Add(m, ev).manager, Handled(m, ev))
  {
    hide Touch, DropStack, Add, AllTidy, Silenced, Conclude;
    AddOf(m, ev, ev.key);
    var a := Add(m, ev);
    if a.kept {
      TouchAgainOf(a.manager, ev.key.pid, ev.key);
      var c := Touch(a.manager, ev.key.pid);
      ConcludeOf(c, ev, ev.key);
      DropOf(Conclude(c, ev), ev.key, ev.key);
    }
  }
}
