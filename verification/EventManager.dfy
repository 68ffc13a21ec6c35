/** The event manager as the event loop runs it: one object, with one object a process. */
module EventManager {
  import opened TraceEvents
  import opened ManagerState

  class ProcessState {
    var goEvents: map<int, seq<Retained>>
    var goEventStack: map<int, seq<int>>
    var invalid: set<int>
    var lastSeen: int
    var records: seq<CallRecord>

    constructor (now: int)
      ensures View() == NewProcess(now)
    {
      goEvents, goEventStack, invalid, lastSeen, records := map[], map[], {}, now, [];
    }

    function View(): Process
      reads this
    {
      Process(goEvents, goEventStack, invalid, lastSeen, records)
    }

    method Seen(now: int)
      modifies this`lastSeen
      ensures View() == old(View()).(lastSeen := now)
    {
      lastSeen := now;
    }

    method Forget(goid: int)
      modifies this`goEvents, this`goEventStack, this`invalid
      ensures View() == old(View()).Without(goid) && View().lastSeen == old(View().lastSeen)
    {
      goEvents := goEvents - {goid};
      goEventStack := goEventStack - {goid};
      invalid := invalid - {goid};
    }

    /** `updateObservedStack`. */
    method UpdateObservedStack(config: Config, ev: TraceEvent, probe: Probe)
      modifies this`goEventStack, this`invalid
      ensures View() == Observe(config, old(View()), ev, probe) && lastSeen == old(lastSeen)
    {
      var stack := View().Stack(ev.key.goid);
      match ev.location
      case Entry =>
        goEventStack := goEventStack[ev.key.goid := stack + [ev.ip]];
      case Ret =>
        if config.aggregate && (|stack| == 0 || stack[|stack| - 1] != probe.entry) {
          invalid := invalid + {ev.key.goid};
        } else if |stack| > 0 {
          goEventStack := goEventStack[ev.key.goid := stack[..|stack| - 1]];
        }
      case GoroutineExit =>
    }

    method ReplaceLast(ev: TraceEvent)
      requires View().Events(ev.key.goid) != []
      modifies this`goEvents
      ensures View() == Replace(old(View()), ev) && lastSeen == old(lastSeen)
    {
      var events := goEvents[ev.key.goid];
      var last := events[|events| - 1];
      goEvents := goEvents[ev.key.goid := events[|events| - 1 := last.(event := ev)]];
    }

    method AppendEvent(config: Config, ev: TraceEvent, probe: Probe)
      modifies this`goEvents, this`goEventStack, this`invalid
      ensures View() == Append(config, old(View()), ev, probe) && lastSeen == old(lastSeen)
    {
      var events := View().Events(ev.key.goid);
      goEvents := goEvents[ev.key.goid := events + [Retained(ev, probe, ev.text)]];
      UpdateObservedStack(config, ev, probe);
    }

    /** The loop of `AggregateStack`. */
    method Aggregate(goid: int)
      modifies this`records
      ensures View() == old(View()).(records := old(records) + Replayed(old(View()).Events(goid)).records)
    {
      hide Replayed;
      var events := View().Events(goid);
      var frames: seq<Frame> := [];
      var i := 0;
      NothingReplayed(events);
      while i < |events|
        invariant 0 <= i <= |events|
        invariant goEvents == old(goEvents) && goEventStack == old(goEventStack) && invalid == old(invalid)
        invariant Replayed(events[..i]).ok && frames == Replayed(events[..i]).frames
        invariant records == old(records) + Replayed(events[..i]).records
      {
        var e := events[i];
        ReplayNext(events, i);
        match e.event.location {
          case Entry =>
            var weight := if e.event.denominator == 0 then 1 else e.event.denominator;
            frames := frames + [Frame(e.event.ip, e.event.timeNs, weight)];
          case Ret =>
            if |frames| == 0 || frames[|frames| - 1].entryIp != e.probe.entry {
              StopsAt(events, i + 1);
              return;
            }
            var current := frames[|frames| - 1];
            frames := frames[..|frames| - 1];
            records := records + [CallRecord(e.probe.funcname, Elapsed(current.start, e.event.timeNs), e.text, current.weight)];
          case GoroutineExit =>
        }
        i := i + 1;
      }
      assert events[..|events|] == events;
    }
  }

  lemma ReplayNext(events: seq<Retained>, i: nat)
    requires i < |events|
    ensures Replayed(events[..i + 1]) == ReplayStep(Replayed(events[..i]), events[i])
  {
    assert events[..i + 1][..i] == events[..i];
  }

  lemma NothingReplayed(events: seq<Retained>)
    ensures Replayed(events[..0]) == Replay([], [], true)
  {
  }

  /** Nothing is recorded after giving up. */
  lemma {:induction false} StopsAt(events: seq<Retained>, n: nat)
    requires n <= |events| && !Replayed(events[..n]).ok
    ensures Replayed(events) == Replayed(events[..n])
  {
    if n == |events| {
      assert events[..n] == events;
    } else {
      assert events[..|events| - 1][..n] == events[..n];
      StopsAt(events[..|events| - 1], n);
    }
  }

  class EventManager {
    const config: Config
    var pids: map<int, ProcessState>
    var seqNo: nat
    ghost var requests: seq<int>
    ghost var processes: map<int, Process>
    ghost var objects: set<ProcessState>
    var pending: nat
    var droppedStacks: nat
    var droppedIncomplete: nat
    var droppedAborted: nat
    var droppedOverBudget: nat
    var evicted: nat
    var suppressed: set<Key>

    /** `processes` mirrors the objects in `pids`, no two of which are the same. */
    ghost predicate Valid()
      reads this`pids, this`processes, this`objects, this`seqNo, objects
    {
      && processes.Keys == pids.Keys
      && (forall p <- pids :: pids[p] in objects && pids[p].View() == processes[p])
      && (forall p, q | p in pids && q in pids && p != q :: pids[p] != pids[q])
      && Ordered(processes, seqNo)
    }

    ghost function View(): Manager
      reads this
    {
      Manager(config, processes, seqNo, requests, pending, droppedStacks, droppedIncomplete,
              droppedAborted, droppedOverBudget, evicted, suppressed)
    }

    constructor (aggregate: bool, adaptive: bool, probes: map<int, Probe>, muted: set<int>, memoryLimit: nat)
      ensures Valid() && objects == {}
      ensures View() == NewManager(Config(aggregate, adaptive, Budget(adaptive, memoryLimit), probes, muted))
    {
      var maxPending := 0;
      if adaptive {
        maxPending := memoryLimit / BUDGET_DIV / EVENT_BYTES;
        if maxPending == 0 {
          maxPending := 1;
        }
      }
      config := Config(aggregate, adaptive, maxPending, probes, muted);
      pids, processes, objects, seqNo, requests, pending, suppressed := map[], map[], {}, 0, [], 0, {};
      droppedStacks, droppedIncomplete, droppedAborted, droppedOverBudget, evicted := 0, 0, 0, 0, 0;
    }

    method FindOldest() returns (oldest: int)
      requires Valid() && processes != map[]
      ensures oldest in pids && processes != map[] && oldest == Oldest(processes)
      ensures pids[oldest].View() == processes[oldest]
    {
      hide Oldest;
      assert processes.Keys == pids.Keys != {};
      HasMember(pids.Keys);
      oldest :| oldest in pids;
      var todo := pids.Keys - {oldest};
      while todo != {}
        invariant todo <= pids.Keys && oldest in pids
        invariant forall q <- pids.Keys - todo :: pids[oldest].lastSeen <= pids[q].lastSeen
        decreases |todo|
      {
        HasMember(todo);
        var candidate :| candidate in todo;
        todo := todo - {candidate};
        if pids[candidate].lastSeen < pids[oldest].lastSeen {
          oldest := candidate;
        }
      }
      OldestUnique(processes, seqNo, oldest);
    }

    /** The loop that counts the events an evicted process held. */
    method Released(p: int) returns (n: nat)
      requires p in pids
      ensures n == |SlotsOf(p, pids[p].View())|
    {
      var s := pids[p];
      n := 0;
      var todo := s.goEvents.Keys;
      ghost var counted: set<Slot> := {};
      while todo != {}
        invariant todo <= s.goEvents.Keys
        invariant counted == set g, i | g in s.goEvents && g !in todo && 0 <= i < |s.goEvents[g]| :: Slot(p, g, i)
        invariant n == |counted|
        decreases |todo|
      {
        HasMember(todo);
        var g :| g in todo;
        todo := todo - {g};
        n := n + |s.goEvents[g]|;
        RowSize(p, g, |s.goEvents[g]|);
        counted := counted + Row(p, g, |s.goEvents[g]|);
      }
      assert counted == SlotsOf(p, s.View());
    }

    /** The loop that forgets the suppressed goroutines of an evicted process. */
    method ForgetSuppressed(pid: int)
      modifies this`suppressed
      ensures suppressed == set k | k in old(suppressed) && k.pid != pid
    {
      var todo := suppressed;
      while todo != {}
        invariant todo <= old(suppressed)
        invariant suppressed == set k | k in old(suppressed) && (k in todo || k.pid != pid)
        decreases |todo|
      {
        var key :| key in todo;
        todo := todo - {key};
        if key.pid == pid {
          suppressed := suppressed - {key};
        }
      }
    }

    method Remove(pid: int)
      requires Valid()
      modifies this`pids, this`processes
      ensures Valid() && processes == old(processes) - {pid} && pids.Keys <= old(pids.Keys)
      ensures OrderedBefore(old(processes), seqNo) ==> OrderedBefore(processes, seqNo)
    {
      hide Ordered, ProcessState.View;
      OrderedSubset(processes, seqNo, pid);
      pids, processes := pids - {pid}, processes - {pid};
    }

    /** The part of `pidState` that makes room. */
    method EvictOldest()
      requires Valid() && processes != map[]
      modifies this`pids, this`processes, this`pending, this`suppressed, this`evicted
      ensures Valid() && pids.Keys <= old(pids.Keys)
      ensures OrderedBefore(old(processes), seqNo) ==> OrderedBefore(processes, seqNo)
      ensures View() == Evict(old(View()))
    {
      hide Valid, OrderedBefore, SlotsOf, ProcessState.View, Oldest;
      var oldest := FindOldest();
      var released := Released(oldest);
      pending := if released >= pending then 0 else pending - released;
      Remove(oldest);
      ForgetSuppressed(oldest);
      evicted := evicted + 1;
    }

    /** A new process takes its place. */
    method Insert(pid: int) returns (s: ProcessState)
      requires Valid() && pid !in pids && OrderedBefore(processes, seqNo)
      modifies this`pids, this`processes, this`objects
      ensures Valid() && fresh(objects - old(objects))
      ensures View() == old(View()).(pids := old(processes)[pid := NewProcess(seqNo)])
      ensures pid in pids && s == pids[pid] && s.View() == processes[pid]
    {
      hide Ordered;
      s := new ProcessState(seqNo);
      OrderedTouch(processes, seqNo, pid, s.View());
      pids, processes, objects := pids[pid := s], processes[pid := s.View()], objects + {s};
    }

    /** A known process moves to the front. */
    method Refresh(pid: int) returns (s: ProcessState)
      requires Valid() && pid in pids && OrderedBefore(processes, seqNo)
      modifies this`processes, objects
      ensures Valid()
      ensures View() == old(View()).(pids := old(processes)[pid := old(processes[pid]).(lastSeen := seqNo)])
      ensures s == pids[pid] && s.View() == processes[pid]
    {
      hide Ordered, ProcessState.View;
      s := pids[pid];
      s.Seen(seqNo);
      OrderedTouch(processes, seqNo, pid, s.View());
      processes := processes[pid := s.View()];
    }

    method MakeRoom()
      requires Valid() && |processes| == |pids|
      modifies this`pids, this`processes, this`pending, this`suppressed, this`evicted
      ensures Valid() && pids.Keys <= old(pids.Keys)
      ensures OrderedBefore(old(processes), seqNo) ==> OrderedBefore(processes, seqNo)
      ensures View() == Roomy(old(View()))
    {
      hide Valid, OrderedBefore, Evict;
      if config.adaptive && |pids| >= MAX_PIDS {
        EvictOldest();
      }
    }

    method Tick(pid: int)
      requires Valid()
      modifies this`seqNo, this`requests
      ensures Valid() && OrderedBefore(processes, seqNo)
      ensures View() == old(View()).(seqNo := old(seqNo) + 1, requests := old(requests) + [pid])
      ensures processes.Keys == pids.Keys && |processes| == |pids|
    {
      hide Ordered, ProcessState.View;
      OrderedNext(processes, seqNo);
      seqNo := seqNo + 1;
      requests := requests + [pid];
      assert |processes.Keys| == |pids.Keys|;
    }

    /** `pidState`. */
    method PidState(pid: int) returns (s: ProcessState)
      requires Valid()
      modifies this, objects
      ensures Valid() && fresh(objects - old(objects))
      ensures View() == Touch(old(View()), pid)
      ensures pid in pids && s == pids[pid] && s.View() == processes[pid]
    {
      hide Valid, OrderedBefore, Roomy, ProcessState.View;
      Tick(pid);
      if pid in pids {
        s := Refresh(pid);
        return;
      }
      MakeRoom();
      s := Insert(pid);
    }

    /** `dropStack`. */
    method DropStack(key: Key)
      requires Valid()
      modifies this`pending, this`processes, objects
      ensures Valid()
      ensures View() == ManagerState.DropStack(old(View()), key)
    {
      hide Ordered, ProcessState.View, Process.Without;
      if key.pid !in pids {
        return;
      }
      var s := pids[key.pid];
      if config.adaptive {
        var released := |s.View().Events(key.goid)|;
        pending := if released >= pending then 0 else pending - released;
      }
      s.Forget(key.goid);
      OrderedUpdate(processes, seqNo, key.pid, s.View());
      processes := processes[key.pid := s.View()];
    }

    method ResetStaleSample(ev: TraceEvent)
      requires Valid()
      modifies this`pending, this`processes, this`droppedStacks, this`droppedIncomplete, objects
      ensures Valid()
      ensures View() == ResetStale(old(View()), ev)
    {
      hide Ordered, ManagerState.DropStack;
      if !ev.flags.start {
        return;
      }
      if ev.key.pid in pids && |pids[ev.key.pid].View().Events(ev.key.goid)| > 0 {
        DropStack(ev.key);
        droppedStacks := droppedStacks + 1;
        droppedIncomplete := droppedIncomplete + 1;
      }
    }

    method ReplaceLast(s: ProcessState, ev: TraceEvent)
      requires Valid() && ev.key.pid in pids && s == pids[ev.key.pid] && s.View().Events(ev.key.goid) != []
      modifies this`processes, objects
      ensures Valid() && s.View() == Replace(old(s.View()), ev)
      ensures processes == old(processes)[ev.key.pid := s.View()]
    {
      hide Ordered, Replace;
      s.ReplaceLast(ev);
      OrderedUpdate(processes, seqNo, ev.key.pid, s.View());
      processes := processes[ev.key.pid := s.View()];
    }

    method AppendEvent(s: ProcessState, ev: TraceEvent, probe: Probe)
      requires Valid() && ev.key.pid in pids && s == pids[ev.key.pid]
      modifies this`processes, objects
      ensures Valid() && s.View() == Append(config, old(s.View()), ev, probe)
      ensures processes == old(processes)[ev.key.pid := s.View()]
    {
      hide Ordered, Append;
      s.AppendEvent(config, ev, probe);
      OrderedUpdate(processes, seqNo, ev.key.pid, s.View());
      processes := processes[ev.key.pid := s.View()];
    }

    /** `Add` past the gate of adaptive mode. */
    method RetainEvent(ev: TraceEvent) returns (kept: bool)
      requires Valid()
      modifies this, objects
      ensures Valid() && fresh(objects - old(objects))
      ensures Outcome(View(), kept) == Retain(old(View()), ev)
      ensures kept ==> ev.key.pid in pids
    {
      hide Valid, Touch, Replace, Append;
      if ev.ip !in config.probes {
        return false;
      }
      var probe := config.probes[ev.ip];
      var s := PidState(ev.key.pid);
      var events := s.View().Events(ev.key.goid);
      var length := |events|;
      if length == 0 {
        if ev.location != Entry {
          return false;
        }
        if config.adaptive && !ev.flags.start {
          return false;
        }
      }
      if length > 0 {
        if IsDuplicate(events[length - 1].event, ev) {
          ReplaceLast(s, ev);
          return true;
        }
      }
      if config.adaptive {
        pending := pending + 1;
      }
      AppendEvent(s, ev, probe);
      return true;
    }

    /** What `Add` does when the budget is used up. */
    method RefuseOverBudget(ev: TraceEvent)
      requires Valid()
      modifies this`pending, this`processes, this`suppressed, this`droppedStacks, this`droppedOverBudget, objects
      ensures Valid()
      ensures View() == OverBudget(old(View()), ev)
    {
      hide Valid, ManagerState.DropStack;
      DropStack(ev.key);
      if !ev.flags.end {
        if |suppressed| >= MAX_SUPPRESSED {
          suppressed := {};
        }
        suppressed := suppressed + {ev.key};
      }
      droppedStacks := droppedStacks + 1;
      droppedOverBudget := droppedOverBudget + 1;
    }

    /** `Add`. */
    method Add(ev: TraceEvent) returns (kept: bool)
      requires Valid()
      modifies this, objects
      ensures Valid() && fresh(objects - old(objects))
      ensures Outcome(View(), kept) == ManagerState.Add(old(View()), ev)
      ensures kept ==> ev.key.pid in pids
    {
      hide Valid, ResetStale, Retain, OverBudget;
      if config.adaptive {
        ResetStaleSample(ev);
        if ev.key in suppressed {
          if ev.flags.start {
            suppressed := suppressed - {ev.key};
          } else {
            if ev.flags.end {
              suppressed := suppressed - {ev.key};
            }
            return false;
          }
        }
        assert suppressed == suppressed - {ev.key};
        if pending >= config.maxPending {
          RefuseOverBudget(ev);
          return false;
        }
      }
      kept := RetainEvent(ev);
    }

    /** `CloseStack`. */
    method CloseStack(ev: TraceEvent) returns (closed: bool)
      requires Valid()
      modifies this, objects
      ensures Valid() && fresh(objects - old(objects))
      ensures View() == Touch(old(View()), ev.key.pid)
      ensures closed == Closes(config, View().pids[ev.key.pid], ev)
    {
      hide Ordered, Touch;
      var s := PidState(ev.key.pid);
      if config.aggregate && config.adaptive {
        return ev.flags.end;
      }
      return |s.View().Stack(ev.key.goid)| == 0 && |s.View().Events(ev.key.goid)| > 0;
    }

    method AggregateStack(key: Key)
      requires Valid()
      modifies this, objects
      ensures Valid() && fresh(objects - old(objects))
      ensures View() == ManagerState.AggregateStack(old(View()), key)
    {
      hide Ordered, Touch, Replayed;
      var s := PidState(key.pid);
      s.Aggregate(key.goid);
      OrderedUpdate(processes, seqNo, key.pid, s.View());
      processes := processes[key.pid := s.View()];
    }

    /** What `Handle` does with a closed stack. Printing it only looks its process up. */
    method Finish(ev: TraceEvent)
      requires Valid()
      modifies this, objects
      ensures Valid() && fresh(objects - old(objects))
      ensures View() == Conclude(old(View()), ev)
    {
      hide Valid, Touch, ManagerState.AggregateStack;
      if config.aggregate {
        var s := PidState(ev.key.pid);
        if ev.key.goid in s.invalid || |s.View().Stack(ev.key.goid)| != 0 {
          droppedStacks := droppedStacks + 1;
          droppedIncomplete := droppedIncomplete + 1;
          return;
        }
        AggregateStack(ev.key);
        return;
      }
      if ev.ip in config.muted {
        return;
      }
      var printed := PidState(ev.key.pid);
    }

    /** `Handle`. */
    method Handle(ev: TraceEvent)
      requires Valid()
      modifies this, objects
      ensures Valid() && fresh(objects - old(objects))
      ensures View() == Handled(old(View()), ev)
    {
      hide Valid, Touch, ManagerState.DropStack, ManagerState.Add, Conclude, Closes;
      if ev.location.GoroutineExit? {
        suppressed := suppressed - {ev.key};
        DropStack(ev.key);
        return;
      }
      if config.adaptive && ev.flags.abort {
        suppressed := suppressed - {ev.key};
        DropStack(ev.key);
        droppedStacks := droppedStacks + 1;
        droppedAborted := droppedAborted + 1;
        return;
      }
      var kept := Add(ev);
      if !kept {
        return;
      }
      var closed := CloseStack(ev);
      if !closed {
        return;
      }
      Finish(ev);
      DropStack(ev.key);
    }
  }

  /** Sequence numbers are distinct and none is from the future. */
  ghost predicate Ordered(pids: map<int, Process>, now: int)
  {
    && (forall p <- pids :: pids[p].lastSeen <= now)
    && (forall p, q | p in pids && q in pids && p != q :: pids[p].lastSeen != pids[q].lastSeen)
  }

  lemma OldestUnique(pids: map<int, Process>, now: int, p: int)
    requires Ordered(pids, now) && IsOldest(pids, p)
    ensures p == Oldest(pids)
  {
    assert IsOldest(pids, Oldest(pids));
  }

  lemma OrderedSubset(pids: map<int, Process>, now: int, p: int)
    requires Ordered(pids, now)
    ensures Ordered(pids - {p}, now)
    ensures OrderedBefore(pids, now) ==> OrderedBefore(pids - {p}, now)
  {
  }

  lemma OrderedUpdate(pids: map<int, Process>, now: int, p: int, s: Process)
    requires Ordered(pids, now) && p in pids && s.lastSeen == pids[p].lastSeen
    ensures Ordered(pids[p := s], now)
  {
  }

  /** All of them from the past. */
  ghost predicate OrderedBefore(pids: map<int, Process>, now: int)
  {
    Ordered(pids, now) && forall p <- pids :: pids[p].lastSeen < now
  }

  lemma OrderedNext(pids: map<int, Process>, now: int)
    requires Ordered(pids, now)
    ensures OrderedBefore(pids, now + 1)
  {
  }

  lemma OrderedTouch(pids: map<int, Process>, now: int, p: int, s: Process)
    requires OrderedBefore(pids, now) && s.lastSeen == now
    ensures Ordered(pids[p := s], now)
  {
  }
}
