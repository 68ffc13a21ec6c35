/** The probes in the kernel: they admit root calls, follow a sampled goroutine until its root call
 *  returns, and hand events to the queue. */
module TraceKernel {
  import opened Wrappers
  import opened TraceEvents

  const MAX_SAMPLE_EVENTS := 4096
  const MAX_TRACED := 10000
  const QUEUE_CAPACITY := 10000

  /** What user space installs before the probes: the wanted functions, by entry address, and for
   *  each of their return addresses that entry. */
  datatype Tables = Tables(adaptive: bool, wanted: set<int>, wantedRet: map<int, int>)

  datatype TraceState = TraceState(
    rootIp: int,
    lastIp: int,
    lastBp: int,
    rootDepth: nat,
    eventCount: nat,
    denominator: nat)

  /** A probe that fires. `denominator` is the sampling rate in force and `lucky` the draw. */
  datatype Hit =
    | Enter(key: Key, ip: int, bp: int, callerBp: int, timeNs: int, text: string, denominator: nat, lucky: bool)
    | Leave(key: Key, ip: int, timeNs: int, text: string)
    | Exit(key: Key)

  /** What a probe leaves in the map for its goroutine, and the event it hands to the queue. */
  datatype Reaction = Reaction(state: Option<TraceState>, event: Option<TraceEvent>)

  const SILENCE := Reaction(None, None)

  function Rate(denominator: nat): nat
  {
    if denominator <= 1 then 1 else denominator
  }

  predicate Sampled(h: Hit)
    requires h.Enter?
  {
    Rate(h.denominator) <= 1 || h.lucky
  }

  predicate Repeats(s: TraceState, h: Hit)
    requires h.Enter?
  {
    s.lastIp == h.ip && s.lastBp != h.callerBp
  }

  function Overflows(tables: Tables, s: TraceState): bool
  {
    tables.adaptive && s.eventCount + 1 > MAX_SAMPLE_EVENTS
  }

  function EntryEvent(h: Hit, denominator: nat, flags: Flags): TraceEvent
    requires h.Enter?
  {
    TraceEvent(h.key, Entry, h.ip, h.bp, h.callerBp, h.timeNs, denominator, flags, h.text)
  }

  function ReturnEvent(h: Hit, denominator: nat, flags: Flags): TraceEvent
    requires h.Leave?
  {
    TraceEvent(h.key, Ret, h.ip, 0, 0, h.timeNs, denominator, flags, h.text)
  }

  /** The probe on a root call, when the goroutine is not being followed. */
  function Admit(tables: Tables, h: Hit, room: bool): Reaction
    requires h.Enter?
  {
    if h.ip !in tables.wanted || !Sampled(h) || !room then SILENCE
    else
      Reaction(Some(TraceState(h.ip, h.ip, h.bp, 1, 1, Rate(h.denominator))),
               Some(EntryEvent(h, Rate(h.denominator), NO_FLAGS.(start := tables.adaptive))))
  }

  /** The entry probe on a goroutine that is followed. */
  function FollowEntry(tables: Tables, s: TraceState, h: Hit): Reaction
    requires h.Enter?
  {
    if Overflows(tables, s) then
      Reaction(None, Some(EntryEvent(h, s.denominator, NO_FLAGS.(abort := true))))
    else
      var deeper := tables.adaptive && h.ip in tables.wanted && s.rootIp == h.ip && !Repeats(s, h);
      Reaction(Some(s.(eventCount := s.eventCount + 1,
                       rootDepth := if deeper then s.rootDepth + 1 else s.rootDepth,
                       lastIp := h.ip, lastBp := h.bp)),
               Some(EntryEvent(h, s.denominator, NO_FLAGS)))
  }

  predicate ReturnsFromRoot(tables: Tables, s: TraceState, h: Hit)
    requires h.Leave?
  {
    tables.adaptive && h.ip in tables.wantedRet && tables.wantedRet[h.ip] == s.rootIp
  }

  /** The return probe on a goroutine that is followed. */
  function FollowReturn(tables: Tables, s: TraceState, h: Hit): Reaction
    requires h.Leave?
  {
    if Overflows(tables, s) then
      Reaction(None, Some(ReturnEvent(h, s.denominator, NO_FLAGS.(abort := true))))
    else if ReturnsFromRoot(tables, s, h) && s.rootDepth <= 1 then
      Reaction(None, Some(ReturnEvent(h, s.denominator, NO_FLAGS.(end := true))))
    else
      Reaction(Some(s.(lastIp := 0, eventCount := s.eventCount + 1,
                       rootDepth := if ReturnsFromRoot(tables, s, h) then s.rootDepth - 1 else s.rootDepth)),
               Some(ReturnEvent(h, s.denominator, NO_FLAGS)))
  }

  /** One probe of one goroutine; `room` says whether another goroutine can be followed. */
  function React(tables: Tables, s: Option<TraceState>, h: Hit, room: bool): Reaction
  {
    match h
    case Enter(_, _, _, _, _, _, _, _) =>
      if s.None? then Admit(tables, h, room) else FollowEntry(tables, s.value, h)
    case Leave(_, _, _, _) =>
      if s.None? then SILENCE else FollowReturn(tables, s.value, h)
    case Exit(key) =>
      if s.None? then SILENCE
      else Reaction(None, Some(TraceEvent(key, GoroutineExit, 0, 0, 0, 0, 0, NO_FLAGS, "")))
  }

  // ---- all goroutines ----

  function Find(states: map<Key, TraceState>, key: Key): Option<TraceState>
  {
    if key in states then Some(states[key]) else None
  }

  function Stored(states: map<Key, TraceState>, key: Key, s: Option<TraceState>): map<Key, TraceState>
  {
    match s
    case Some(value) => states[key := value]
    case None => states - {key}
  }

  lemma FindStored(states: map<Key, TraceState>, key: Key, s: Option<TraceState>, k: Key)
    ensures Find(Stored(states, key, s), k) == if k == key then s else Find(states, k)
  {
  }

  function Reacts(tables: Tables, states: map<Key, TraceState>, h: Hit): Reaction
  {
    React(tables, Find(states, h.key), h, |states| < MAX_TRACED)
  }

  function Accepted(queue: seq<TraceEvent>, event: Option<TraceEvent>): seq<TraceEvent>
  {
    if event.Some? && |queue| < QUEUE_CAPACITY then queue + [event.value] else queue
  }

  class TraceProbes {
    const tables: Tables
    var states: map<Key, TraceState>
    var queue: seq<TraceEvent>
    var wantedRoots: nat
    var admittedRoots: nat
    var sampledOutRoots: nat
    var insertFailures: nat
    var abortedRoots: nat
    var emittedEvents: nat
    var droppedEvents: nat

    /** Every wanted root call is admitted, sampled out or refused for want of room. */
    predicate Balanced()
      reads this
    {
      wantedRoots == admittedRoots + sampledOutRoots + insertFailures
    }

    constructor (tables: Tables)
      ensures this.tables == tables && states == map[] && queue == [] && Balanced()
      ensures emittedEvents == droppedEvents == 0
    {
      this.tables := tables;
      states, queue := map[], [];
      wantedRoots, admittedRoots, sampledOutRoots, insertFailures, abortedRoots := 0, 0, 0, 0, 0;
      emittedEvents, droppedEvents := 0, 0;
    }

    /** A full queue refuses the event; either way it is counted once. */
    method PushEvent(e: TraceEvent)
      modifies this`queue, this`emittedEvents, this`droppedEvents
      ensures queue == Accepted(old(queue), Some(e))
      ensures emittedEvents - old(emittedEvents) == |queue| - |old(queue)|
      ensures emittedEvents + droppedEvents == old(emittedEvents) + old(droppedEvents) + 1
    {
      if |queue| < QUEUE_CAPACITY {
        queue := queue + [e];
        emittedEvents := emittedEvents + 1;
      } else {
        droppedEvents := droppedEvents + 1;
      }
    }

    /** The part of `ent` that admits a root call, or does not. */
    method AdmitRoot(h: Hit) returns (admitted: bool, denominator: nat)
      requires h.Enter? && h.key !in states && Balanced()
      modifies this`states, this`wantedRoots, this`admittedRoots, this`sampledOutRoots, this`insertFailures
      ensures Balanced()
      ensures var called, drawn := h.ip in tables.wanted, h.denominator <= 1 || h.lucky;
              && admitted == (called && drawn && |old(states)| < MAX_TRACED)
              && wantedRoots == old(wantedRoots) + (if called then 1 else 0)
              && admittedRoots == old(admittedRoots) + (if admitted then 1 else 0)
              && sampledOutRoots == old(sampledOutRoots) + (if called && !drawn then 1 else 0)
              && insertFailures == old(insertFailures) + (if called && drawn && !admitted then 1 else 0)
      ensures states == if admitted then old(states)[h.key := TraceState(h.ip, h.ip, h.bp, 1, 1, denominator)] else old(states)
      ensures denominator == Rate(h.denominator)
      ensures states == Stored(old(states), h.key, Reacts(tables, old(states), h).state)
      ensures Reacts(tables, old(states), h).event ==
              if admitted then Some(EntryEvent(h, denominator, NO_FLAGS.(start := tables.adaptive))) else None
    {
      admitted := false;
      denominator := if h.denominator <= 1 then 1 else h.denominator;
      assert states - {h.key} == states;
      if h.ip !in tables.wanted {
        return;
      }
      wantedRoots := wantedRoots + 1;
      if !(denominator <= 1 || h.lucky) {
        sampledOutRoots := sampledOutRoots + 1;
        return;
      }
      if |states| >= MAX_TRACED {
        insertFailures := insertFailures + 1;
        return;
      }
      states := states[h.key := TraceState(h.ip, h.ip, h.bp, 1, 1, denominator)];
      admittedRoots := admittedRoots + 1;
      admitted := true;
    }

    /** `ent`. A goroutine that is not followed is followed from now on exactly if the function is
     *  wanted, the draw admits the call and there is room; then a start event goes out. One counter
     *  says why it is not. */
    method Ent(h: Hit)
      requires h.Enter? && Balanced()
      modifies this
      ensures Balanced()
      ensures states == Stored(old(states), h.key, Reacts(tables, old(states), h).state)
      ensures queue == Accepted(old(queue), Reacts(tables, old(states), h).event)
      ensures emittedEvents - old(emittedEvents) == |queue| - |old(queue)|
      ensures emittedEvents + droppedEvents - old(emittedEvents) - old(droppedEvents) == if h.key in states || h.key in old(states) then 1 else 0
      ensures h.key !in old(states) ==>
                (h.key in states <==> h.ip in tables.wanted && (h.denominator <= 1 || h.lucky) && |old(states)| < 10000)
      ensures h.key !in old(states) && h.key !in states ==> states == old(states) && queue == old(queue)
      ensures h.key !in old(states) && h.key in states ==>
                var rate := if h.denominator > 1 then h.denominator else 1;
                && states == old(states)[h.key := TraceState(h.ip, h.ip, h.bp, 1, 1, rate)]
                && queue == old(queue) + if |old(queue)| >= 10000 then [] else
                     [TraceEvent(h.key, Entry, h.ip, h.bp, h.callerBp, h.timeNs, rate, Flags(tables.adaptive, false, false), h.text)]
      ensures var called := h.key !in old(states) && h.ip in tables.wanted;
              var drawn := h.denominator <= 1 || h.lucky;
              && wantedRoots == old(wantedRoots) + (if called then 1 else 0)
              && admittedRoots == old(admittedRoots) + (if called && drawn && |old(states)| < 10000 then 1 else 0)
              && sampledOutRoots == old(sampledOutRoots) + (if called && !drawn then 1 else 0)
              && insertFailures == old(insertFailures) + (if called && drawn && |old(states)| >= 10000 then 1 else 0)
      ensures abortedRoots == old(abortedRoots)
                + (if h.key in old(states) && tables.adaptive && old(states)[h.key].eventCount >= 4096 then 1 else 0)
    {
      if h.key !in states {
        hide React, Stored;
        var admitted, denominator := AdmitRoot(h);
        if admitted {
          var flags := NO_FLAGS.(start := tables.adaptive);
          PushEvent(TraceEvent(h.key, Entry, h.ip, h.bp, h.callerBp, h.timeNs, denominator, flags, h.text));
        }
        return;
      }
      var state := states[h.key];
      state := state.(eventCount := state.eventCount + 1);
      var flags := NO_FLAGS;
      var traceAbort := false;
      if tables.adaptive && state.eventCount > MAX_SAMPLE_EVENTS {
        flags := flags.(abort := true);
        traceAbort := true;
        abortedRoots := abortedRoots + 1;
      }
      var duplicate := state.lastIp == h.ip && state.lastBp != h.callerBp;
      if !traceAbort && tables.adaptive && h.ip in tables.wanted && state.rootIp == h.ip && !duplicate {
        state := state.(rootDepth := state.rootDepth + 1);
      }
      state := state.(lastIp := h.ip, lastBp := h.bp);
      states := states[h.key := state];
      PushEvent(TraceEvent(h.key, Entry, h.ip, h.bp, h.callerBp, h.timeNs, state.denominator, flags, h.text));
      if traceAbort {
        states := states - {h.key};
        assert states == old(states) - {h.key};
      }
    }

    /** `ret`. */
    method Ret(h: Hit)
      requires h.Leave? && Balanced()
      modifies this
      ensures Balanced()
      ensures states == Stored(old(states), h.key, Reacts(tables, old(states), h).state)
      ensures queue == Accepted(old(queue), Reacts(tables, old(states), h).event)
      ensures emittedEvents - old(emittedEvents) == |queue| - |old(queue)|
      ensures emittedEvents + droppedEvents - old(emittedEvents) - old(droppedEvents) == if h.key in old(states) then 1 else 0
      ensures abortedRoots == old(abortedRoots)
                + (if h.key in old(states) && tables.adaptive && old(states)[h.key].eventCount >= 4096 then 1 else 0)
      ensures wantedRoots == old(wantedRoots) && admittedRoots == old(admittedRoots)
      ensures sampledOutRoots == old(sampledOutRoots) && insertFailures == old(insertFailures)
    {
      if h.key !in states {
        assert states - {h.key} == states;
        return;
      }
      var state := states[h.key];
      state := state.(lastIp := 0);
      var flags := NO_FLAGS;
      var traceAbort := false;
      state := state.(eventCount := state.eventCount + 1);
      if tables.adaptive && state.eventCount > MAX_SAMPLE_EVENTS {
        flags := flags.(abort := true);
        traceAbort := true;
        abortedRoots := abortedRoots + 1;
      }
      var traceEnd := false;
      if !traceAbort && tables.adaptive {
        if h.ip in tables.wantedRet && tables.wantedRet[h.ip] == state.rootIp {
          if state.rootDepth > 1 {
            state := state.(rootDepth := state.rootDepth - 1);
          } else {
            flags := flags.(end := true);
            traceEnd := true;
          }
        }
      }
      states := states[h.key := state];
      PushEvent(TraceEvent(h.key, Location.Ret, h.ip, 0, 0, h.timeNs, state.denominator, flags, h.text));
      if traceEnd || traceAbort {
        states := states - {h.key};
        assert states == old(states) - {h.key};
      }
    }

    /** `goroutine_exit`. */
    method GoroutineExit(h: Hit)
      requires h.Exit? && Balanced()
      modifies this
      ensures Balanced()
      ensures states == Stored(old(states), h.key, Reacts(tables, old(states), h).state)
      ensures queue == Accepted(old(queue), Reacts(tables, old(states), h).event)
      ensures emittedEvents - old(emittedEvents) == |queue| - |old(queue)|
    {
      if h.key !in states {
        assert states - {h.key} == states;
        return;
      }
      states := states - {h.key};
      PushEvent(TraceEvent(h.key, Location.GoroutineExit, 0, 0, 0, 0, 0, NO_FLAGS, ""));
    }
  }
}
