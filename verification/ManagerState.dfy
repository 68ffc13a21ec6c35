/** The event manager as a value: what each of its operations does to the whole state. */
module ManagerState {
  import opened TraceEvents

  const MAX_PIDS := 64
  const MAX_SUPPRESSED := 10000
  const EVENT_BYTES := 2048
  const BUDGET_DIV := 4

  /** `muted` are the addresses whose stacks drill-down does not print: those that resolve to another
   *  function or to none. */
  datatype Config = Config(aggregate: bool, adaptive: bool, maxPending: nat, probes: map<int, Probe>, muted: set<int>)

  /** `pidState`. `records` are the calls of `recordAgg` made for the process, in order. */
  datatype Process = Process(
    goEvents: map<int, seq<Retained>>,
    goEventStack: map<int, seq<int>>,
    invalid: set<int>,
    lastSeen: int,
    records: seq<CallRecord>)
  {
    function Events(goid: int): seq<Retained>
    {
      if goid in goEvents then goEvents[goid] else []
    }

    function Stack(goid: int): seq<int>
    {
      if goid in goEventStack then goEventStack[goid] else []
    }

    /** Without any trace of one goroutine. */
    function Without(goid: int): Process
    {
      this.(goEvents := goEvents - {goid}, goEventStack := goEventStack - {goid}, invalid := invalid - {goid})
    }
  }

  function NewProcess(lastSeen: int): Process
  {
    Process(map[], map[], {}, lastSeen, [])
  }

  /** The position of one retained event. */
  datatype Slot = Slot(pid: int, goid: int, index: nat)

  function SlotsOf(pid: int, s: Process): set<Slot>
  {
    set g, i | g in s.goEvents && 0 <= i < |s.goEvents[g]| :: Slot(pid, g, i)
  }

  /** The slots of one goroutine. */
  function Row(pid: int, goid: int, n: nat): set<Slot>
  {
    set i | 0 <= i < n :: Slot(pid, goid, i)
  }

  lemma {:induction false} RowSize(pid: int, goid: int, n: nat)
    ensures |Row(pid, goid, n)| == n
  {
    if n > 0 {
      RowSize(pid, goid, n - 1);
      assert Row(pid, goid, n) == Row(pid, goid, n - 1) + {Slot(pid, goid, n - 1)};
    }
  }

  /** `requests` is the history of `pidState` calls. */
  datatype Manager = Manager(
    config: Config,
    pids: map<int, Process>,
    seqNo: nat,
    requests: seq<int>,
    pending: nat,
    droppedStacks: nat,
    droppedIncomplete: nat,
    droppedAborted: nat,
    droppedOverBudget: nat,
    evicted: nat,
    suppressed: set<Key>)

  function Budget(adaptive: bool, memoryLimit: nat): nat
  {
    var n := memoryLimit / BUDGET_DIV / EVENT_BYTES;
    if !adaptive then 0 else if n == 0 then 1 else n
  }

  function NewManager(config: Config): Manager
  {
    Manager(config, map[], 0, [], 0, 0, 0, 0, 0, 0, {})
  }

  // ---- processes ----

  ghost predicate IsOldest(pids: map<int, Process>, p: int)
  {
    p in pids && forall q <- pids :: pids[p].lastSeen <= pids[q].lastSeen
  }

  lemma EmptySet(s: set<int>)
    ensures (forall x :: x !in s) ==> s == {}
  {
    if forall x :: x !in s { assert s == {}; }
  }

  lemma HasMember(s: set<int>)
    requires s != {}
    ensures exists x :: x in s
  {
    EmptySet(s);
  }

  lemma {:induction false} OldestExists(pids: map<int, Process>, among: set<int>) returns (p: int)
    requires among <= pids.Keys && among != {}
    ensures p in among && forall q <- among :: pids[p].lastSeen <= pids[q].lastSeen
    decreases |among|
  {
    HasMember(among);
    p :| p in among;
    var rest := among - {p};
    assert among == rest + {p};
    if rest != {} {
      var q := OldestExists(pids, rest);
      if pids[q].lastSeen < pids[p].lastSeen { p := q; }
    }
  }

  ghost function Oldest(pids: map<int, Process>): (p: int)
    requires pids != map[]
    ensures IsOldest(pids, p)
  {
    assert exists p :: IsOldest(pids, p) by {
      assert pids.Keys != {};
      var p := OldestExists(pids, pids.Keys);
      assert IsOldest(pids, p);
    }
    var p :| IsOldest(pids, p); p
  }

  /** Forgetting the least recently used process: its events leave the budget, its suppressed
   *  goroutines are forgotten. */
  ghost function Evict(m: Manager): (r: Manager)
    requires m.pids != map[]
    ensures r.config == m.config && r.requests == m.requests && r.seqNo == m.seqNo
  {
    var p := Oldest(m.pids);
    m.(pids := m.pids - {p},
       pending := Minus(m.pending, |SlotsOf(p, m.pids[p])|),
       suppressed := (set k | k in m.suppressed && k.pid != p),
       evicted := m.evicted + 1)
  }

  /** Room for one more process, where their number is limited. */
  ghost function Roomy(m: Manager): (r: Manager)
    ensures r.config == m.config && r.requests == m.requests && r.seqNo == m.seqNo
  {
    if m.config.adaptive && |m.pids| >= MAX_PIDS then Evict(m) else m
  }

  /** `pidState`. */
  ghost function Touch(m: Manager, pid: int): (t: Manager)
    ensures t.config == m.config && pid in t.pids
  {
    var now := m.seqNo + 1;
    var r := m.(seqNo := now, requests := m.requests + [pid]);
    if pid in m.pids then r.(pids := m.pids[pid := m.pids[pid].(lastSeen := now)])
    else
      var e := Roomy(r);
      e.(pids := e.pids[pid := NewProcess(now)])
  }

  /** `dropStack`. */
  ghost function DropStack(m: Manager, key: Key): (r: Manager)
    ensures r.config == m.config
  {
    if key.pid !in m.pids then m
    else
      var s := m.pids[key.pid];
      m.(pending := if m.config.adaptive then Minus(m.pending, |s.Events(key.goid)|) else m.pending,
         pids := m.pids[key.pid := s.Without(key.goid)])
  }

  // ---- taking an event in ----

  /** A manager, and whether the event was kept. */
  datatype Outcome = Outcome(manager: Manager, kept: bool)

  /** `resetStaleSample`. */
  ghost function ResetStale(m: Manager, ev: TraceEvent): (r: Manager)
    ensures r.config == m.config
  {
    if ev.flags.start && ev.key.pid in m.pids && |m.pids[ev.key.pid].Events(ev.key.goid)| > 0 then
      var d := DropStack(m, ev.key);
      d.(droppedStacks := d.droppedStacks + 1, droppedIncomplete := d.droppedIncomplete + 1)
    else m
  }

  ghost function OverBudget(m: Manager, ev: TraceEvent): (r: Manager)
    ensures r.config == m.config
  {
    var d := DropStack(m, ev.key);
    d.(suppressed :=
         if ev.flags.end then d.suppressed
         else (if |d.suppressed| >= MAX_SUPPRESSED then {} else d.suppressed) + {ev.key},
       droppedStacks := d.droppedStacks + 1,
       droppedOverBudget := d.droppedOverBudget + 1)
  }

  /** `updateObservedStack`. */
  function Observe(config: Config, s: Process, ev: TraceEvent, probe: Probe): Process
  {
    var stack := s.Stack(ev.key.goid);
    match ev.location
    case Entry => s.(goEventStack := s.goEventStack[ev.key.goid := stack + [ev.ip]])
    case Ret =>
      if config.aggregate && (stack == [] || stack[|stack| - 1] != probe.entry) then
        s.(invalid := s.invalid + {ev.key.goid})
      else if stack != [] then
        s.(goEventStack := s.goEventStack[ev.key.goid := stack[..|stack| - 1]])
      else s
    case GoroutineExit => s
  }

  /** The last retained event repeated. */
  function Replace(s: Process, ev: TraceEvent): Process
    requires s.Events(ev.key.goid) != []
  {
    var es := s.Events(ev.key.goid);
    s.(goEvents := s.goEvents[ev.key.goid := es[|es| - 1 := es[|es| - 1].(event := ev)]])
  }

  function Append(config: Config, s: Process, ev: TraceEvent, probe: Probe): Process
  {
    var es := s.Events(ev.key.goid) + [Retained(ev, probe, ev.text)];
    Observe(config, s.(goEvents := s.goEvents[ev.key.goid := es]), ev, probe)
  }

  /** The part of `Add` behind the gate of adaptive mode. */
  ghost function Retain(m: Manager, ev: TraceEvent): (r: Outcome)
    ensures r.manager.config == m.config
  {
    if ev.ip !in m.config.probes then Outcome(m, false)
    else
      var t := Touch(m, ev.key.pid);
      var s := t.pids[ev.key.pid];
      var es := s.Events(ev.key.goid);
      if es == [] && (ev.location != Entry || (m.config.adaptive && !ev.flags.start)) then Outcome(t, false)
      else if es != [] && IsDuplicate(es[|es| - 1].event, ev) then
        Outcome(t.(pids := t.pids[ev.key.pid := Replace(s, ev)]), true)
      else
        Outcome(t.(pids := t.pids[ev.key.pid := Append(m.config, s, ev, m.config.probes[ev.ip])],
                   pending := if m.config.adaptive then t.pending + 1 else t.pending), true)
  }

  /** `Add`. */
  ghost function Add(m: Manager, ev: TraceEvent): (r: Outcome)
    ensures r.manager.config == m.config
  {
    if !m.config.adaptive then Retain(m, ev)
    else
      var r := ResetStale(m, ev);
      if ev.key in r.suppressed && !ev.flags.start then
        Outcome(if ev.flags.end then r.(suppressed := r.suppressed - {ev.key}) else r, false)
      else
        var u := r.(suppressed := r.suppressed - {ev.key});
        if u.pending >= u.config.maxPending then Outcome(OverBudget(u, ev), false)
        else Retain(u, ev)
  }

  // ---- closing a stack ----

  datatype Frame = Frame(entryIp: int, start: int, weight: nat)

  /** `AggregateStack` so far: open frames, calls recorded, and whether it has given up. */
  datatype Replay = Replay(frames: seq<Frame>, records: seq<CallRecord>, ok: bool)

  function ReplayStep(r: Replay, e: Retained): Replay
  {
    if !r.ok then r
    else match e.event.location
      case Entry =>
        r.(frames := r.frames + [Frame(e.event.ip, e.event.timeNs, SampleWeight(e.event.denominator))])
      case Ret =>
        if r.frames == [] || r.frames[|r.frames| - 1].entryIp != e.probe.entry then r.(ok := false)
        else
          var current := r.frames[|r.frames| - 1];
          Replay(r.frames[..|r.frames| - 1],
                 r.records + [CallRecord(e.probe.funcname, Elapsed(current.start, e.event.timeNs), e.text, current.weight)],
                 true)
      case GoroutineExit => r
  }

  function Replayed(es: seq<Retained>): Replay
  {
    if es == [] then Replay([], [], true)
    else ReplayStep(Replayed(es[..|es| - 1]), es[|es| - 1])
  }

  /** `CloseStack`, after its own look-up of the process. */
  predicate Closes(config: Config, s: Process, ev: TraceEvent)
  {
    if config.aggregate && config.adaptive then ev.flags.end
    else s.Stack(ev.key.goid) == [] && s.Events(ev.key.goid) != []
  }

  /** What `Handle` does with a closed stack before it is cleared. */
  ghost function Conclude(m: Manager, ev: TraceEvent): (r: Manager)
    ensures r.config == m.config
  {
    var t := Touch(m, ev.key.pid);
    var s := t.pids[ev.key.pid];
    if !m.config.aggregate then if ev.ip in m.config.muted then m else t
    else if ev.key.goid in s.invalid || s.Stack(ev.key.goid) != [] then
      t.(droppedStacks := t.droppedStacks + 1, droppedIncomplete := t.droppedIncomplete + 1)
    else AggregateStack(t, ev.key)
  }

  ghost function AggregateStack(m: Manager, key: Key): (r: Manager)
    ensures r.config == m.config
  {
    var t := Touch(m, key.pid);
    var s := t.pids[key.pid];
    t.(pids := t.pids[key.pid := s.(records := s.records + Replayed(s.Events(key.goid)).records)])
  }

  /** `Handle`. */
  ghost function Handled(m: Manager, ev: TraceEvent): (r: Manager)
    ensures r.config == m.config
  {
    if ev.location.GoroutineExit? then
      DropStack(m.(suppressed := m.suppressed - {ev.key}), ev.key)
    else if m.config.adaptive && ev.flags.abort then
      var d := DropStack(m.(suppressed := m.suppressed - {ev.key}), ev.key);
      d.(droppedStacks := d.droppedStacks + 1, droppedAborted := d.droppedAborted + 1)
    else
      var a := Add(m, ev);
      if !a.kept then a.manager
      else
        var c := Touch(a.manager, ev.key.pid);
        if !Closes(m.config, c.pids[ev.key.pid], ev) then c
        else DropStack(Conclude(c, ev), ev.key)
  }

  /** A whole run of the event loop. */
  ghost function HandledAll(m: Manager, evs: seq<TraceEvent>): (r: Manager)
    ensures r.config == m.config
  {
    if evs == [] then m else Handled(HandledAll(m, evs[..|evs| - 1]), evs[|evs| - 1])
  }
}
