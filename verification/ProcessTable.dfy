/** The table of processes is a true LRU: it keeps the most recently requested ones. */
module ProcessTable {
  import opened TraceEvents
  import opened ManagerState
  import opened Accounting

  // ---- the reference: who was requested after whom ----

  /** The pids requested since the last request for p (since the start, if there is none). */
  function Newer(history: seq<int>, p: int): set<int>
  {
    if history == [] then {}
    else
      var last := history[|history| - 1];
      if last == p then {} else Newer(history[..|history| - 1], p) + {last}
  }

  // ---- the same, as a list: most recent first ----

  function Remove(s: seq<int>, x: int): seq<int>
  {
    if s == [] then [] else if s[0] == x then Remove(s[1..], x) else [s[0]] + Remove(s[1..], x)
  }

  function Mru(history: seq<int>): seq<int>
  {
    if history == [] then []
    else
      var last := history[|history| - 1];
      [last] + Remove(Mru(history[..|history| - 1]), last)
  }

  function Elements(s: seq<int>): set<int>
  {
    if s == [] then {} else {s[0]} + Elements(s[1..])
  }

  predicate Distinct(s: seq<int>)
  {
    s == [] || (s[0] !in s[1..] && Distinct(s[1..]))
  }

  /** What stands before p. */
  function Before(s: seq<int>, p: int): seq<int>
  {
    if s == [] || s[0] == p then [] else [s[0]] + Before(s[1..], p)
  }

  lemma {:induction false} ElementsOf(s: seq<int>, x: int)
    ensures x in Elements(s) <==> x in s
  {
    if s != [] { ElementsOf(s[1..], x); }
  }

  lemma {:induction false} DistinctSize(s: seq<int>)
    requires Distinct(s)
    ensures |Elements(s)| == |s|
  {
    if s != [] {
      DistinctSize(s[1..]);
      ElementsOf(s[1..], s[0]);
    }
  }

  lemma {:induction false} RemoveMember(s: seq<int>, x: int, y: int)
    ensures y in Remove(s, x) <==> y in s && y != x
  {
    if s != [] { RemoveMember(s[1..], x, y); }
  }

  lemma {:induction false} RemoveElements(s: seq<int>, x: int)
    ensures {x} + Elements(Remove(s, x)) == {x} + Elements(s)
  {
    if s != [] {
      RemoveElements(s[1..], x);
      assert s[0] != x ==> Remove(s, x)[1..] == Remove(s[1..], x);
    }
  }

  lemma {:induction false} RemoveAbsent(s: seq<int>, x: int)
    requires x !in s
    ensures Remove(s, x) == s
  {
    if s != [] { RemoveAbsent(s[1..], x); }
  }

  lemma {:induction false} RemoveDistinct(s: seq<int>, x: int)
    requires Distinct(s)
    ensures Distinct(Remove(s, x)) && |Remove(s, x)| == if x in s then |s| - 1 else |s|
  {
    if s != [] {
      RemoveDistinct(s[1..], x);
      RemoveMember(s[1..], x, s[0]);
      if s[0] == x { RemoveAbsent(s[1..], x); }
      else { assert Remove(s, x)[1..] == Remove(s[1..], x); }
    }
  }

  lemma {:induction false} RemoveSplit(a: seq<int>, b: seq<int>, x: int)
    ensures Remove(a + b, x) == Remove(a, x) + Remove(b, x)
  {
    if a == [] {
      assert a + b == b;
    } else {
      assert (a + b)[1..] == a[1..] + b;
      RemoveSplit(a[1..], b, x);
    }
  }

  lemma {:induction false} BeforeRemove(s: seq<int>, x: int, p: int)
    requires p != x
    ensures Before(Remove(s, x), p) == Remove(Before(s, p), x)
  {
    if s != [] {
      BeforeRemove(s[1..], x, p);
      assert s[0] != x ==> Remove(s, x)[1..] == Remove(s[1..], x);
      assert s[0] != p ==> Before(s, p)[1..] == Before(s[1..], p);
    }
  }

  lemma {:induction false} MruDistinct(history: seq<int>)
    ensures Distinct(Mru(history))
  {
    if history != [] {
      var h, x := history[..|history| - 1], history[|history| - 1];
      MruDistinct(h);
      RemoveDistinct(Mru(h), x);
      RemoveMember(Mru(h), x, x);
      assert ([x] + Remove(Mru(h), x))[1..] == Remove(Mru(h), x);
    }
  }

  lemma {:induction false} MruMember(history: seq<int>, p: int)
    ensures p in Mru(history) <==> p in history
  {
    if history != [] {
      var h, x := history[..|history| - 1], history[|history| - 1];
      MruMember(h, p);
      RemoveMember(Mru(h), x, p);
      assert history == h + [x];
    }
  }

  /** Before p stand exactly the pids requested since. */
  lemma {:induction false} BeforeIsNewer(history: seq<int>, p: int)
    ensures Newer(history, p) == Elements(Before(Mru(history), p))
  {
    if history != [] {
      var h, x := history[..|history| - 1], history[|history| - 1];
      BeforeIsNewer(h, p);
      var m := Mru(h);
      if p != x {
        BeforeRemove(m, x, p);
        RemoveElements(Before(m, p), x);
        assert Mru(history)[1..] == Remove(m, x);
        assert Before(Mru(history), p)[1..] == Remove(Before(m, p), x);
      }
    }
  }

  lemma {:induction false} BeforeDistinct(s: seq<int>, p: int)
    requires Distinct(s)
    ensures Distinct(Before(s, p)) && forall y :: y in Before(s, p) ==> y in s
  {
    if s != [] && s[0] != p {
      BeforeDistinct(s[1..], p);
      assert Before(s, p)[1..] == Before(s[1..], p);
    }
  }

  lemma {:induction false} BeforeLength(s: seq<int>, p: int, n: nat)
    requires n <= |s|
    ensures p in s[..n] <==> p in s && |Before(s, p)| < n
  {
    if s != [] && n > 0 {
      BeforeLength(s[1..], p, n - 1);
      assert s[..n] == [s[0]] + s[1..][..n - 1];
    }
  }

  // ---- the table follows the list ----

  /** How much of the list is kept. */
  function Kept(config: Config, list: seq<int>): seq<int>
  {
    if config.adaptive && |list| > MAX_PIDS then list[..MAX_PIDS] else list
  }

  /** When each process was last seen. */
  function Times(pids: map<int, Process>): (t: map<int, int>)
    ensures t.Keys == pids.Keys
  {
    var t := map p | p in pids :: pids[p].lastSeen;
    assert t.Keys == pids.Keys;
    t
  }

  /** Listed from the latest to the oldest, all before the bound. */
  predicate Descends(times: map<int, int>, list: seq<int>, bound: int)
  {
    list == [] || (list[0] in times && times[list[0]] < bound && Descends(times, list[1..], times[list[0]]))
  }

  ghost predicate SameMembers(times: map<int, int>, list: seq<int>)
  {
    forall x :: x in times <==> x in list
  }

  /** The table holds exactly the listed processes, later ones last seen earlier. */
  ghost predicate Follows(times: map<int, int>, now: int, list: seq<int>)
  {
    Descends(times, list, now + 1) && SameMembers(times, list)
  }

  ghost predicate IsLru(m: Manager)
  {
    Follows(Times(m.pids), m.seqNo, Kept(m.config, Mru(m.requests)))
  }

  /** Moving x to the front of what is kept. */
  lemma KeptAfter(config: Config, list: seq<int>, x: int)
    requires Distinct(list)
    ensures var was, now := Kept(config, list), Kept(config, [x] + Remove(list, x));
            if x in was then now == [x] + Remove(was, x)
            else if config.adaptive && |was| == MAX_PIDS then now == [x] + was[..MAX_PIDS - 1]
            else now == [x] + was
  {
    var was := Kept(config, list);
    var rest := list[|was|..];
    assert list == was + rest;
    RemoveSplit(was, rest, x);
    DistinctSplit(was, rest);
    RemoveDistinct(was, x);
    if x in was {
      RemoveAbsent(rest, x);
      assert config.adaptive ==> ([x] + (Remove(was, x) + rest))[..|was|] == [x] + Remove(was, x);
    } else {
      RemoveAbsent(was, x);
      assert config.adaptive && |was| == MAX_PIDS ==>
          ([x] + (was + Remove(rest, x)))[..MAX_PIDS] == [x] + was[..MAX_PIDS - 1];
    }
  }

  lemma {:induction false} DistinctSplit(a: seq<int>, b: seq<int>)
    requires Distinct(a + b)
    ensures Distinct(a) && forall x :: x in a ==> x !in b
  {
    if a != [] {
      assert (a + b)[1..] == a[1..] + b;
      DistinctSplit(a[1..], b);
    }
  }

  lemma {:induction false} DescendsBelow(times: map<int, int>, list: seq<int>, bound: int, x: int)
    requires Descends(times, list, bound) && x in list
    ensures x in times && times[x] < bound
  {
    if x != list[0] { DescendsBelow(times, list[1..], times[list[0]], x); }
  }

  lemma {:induction false} DescendsRemove(times: map<int, int>, list: seq<int>, bound: int, x: int, now: int, bound': int)
    requires Descends(times, list, bound) && bound <= bound'
    ensures Descends(times[x := now], Remove(list, x), bound')
  {
    if list != [] {
      if list[0] == x {
        DescendsRemove(times, list[1..], times[x], x, now, bound');
      } else {
        DescendsRemove(times, list[1..], times[list[0]], x, now, times[list[0]]);
        assert Remove(list, x)[1..] == Remove(list[1..], x);
      }
    }
  }

  lemma {:induction false} DescendsLast(times: map<int, int>, list: seq<int>, bound: int)
    requires Descends(times, list, bound) && list != []
    ensures var last := list[|list| - 1];
            && last in times && last !in list[..|list| - 1]
            && (forall x :: x in list[..|list| - 1] ==> x in times && times[last] < times[x])
            && Descends(times - {last}, list[..|list| - 1], bound)
  {
    if |list| > 1 {
      DescendsLast(times, list[1..], times[list[0]]);
      var last := list[|list| - 1];
      DescendsBelow(times, list[1..], times[list[0]], last);
      assert list[..|list| - 1] == [list[0]] + list[1..][..|list| - 2];
      assert list[..|list| - 1][1..] == list[1..][..|list| - 2];
    }
  }

  /** A request for x puts it in front. */
  lemma FollowsFront(times: map<int, int>, now: int, list: seq<int>, x: int)
    requires Follows(times, now - 1, list)
    ensures Follows(times[x := now], now, [x] + Remove(list, x))
  {
    DescendsRemove(times, list, now, x, now, now);
    var front := [x] + Remove(list, x);
    assert front[1..] == Remove(list, x);
    forall y
      ensures y in times[x := now] <==> y in front
    {
      RemoveMember(list, x, y);
      assert y in front <==> y == x || y in Remove(list, x);
    }
  }

  /** The oldest process is the last of the list. */
  lemma FollowsRemove(pids: map<int, Process>, now: int, list: seq<int>)
    requires Follows(Times(pids), now, list) && list != [] && pids != map[]
    ensures Oldest(pids) == list[|list| - 1]
    ensures Follows(Times(pids - {Oldest(pids)}), now, list[..|list| - 1])
  {
    var p := Oldest(pids);
    var last := list[|list| - 1];
    var times := Times(pids);
    DescendsLast(times, list, now + 1);
    assert p in times && pids[p].lastSeen <= pids[last].lastSeen;
    assert forall x :: x in list <==> x in list[..|list| - 1] || x == last by {
      assert list == list[..|list| - 1] + [last];
    }
    assert times - {last} == Times(pids - {last});
  }

  lemma {:induction false} FollowsSize(times: map<int, int>, now: int, list: seq<int>)
    requires Follows(times, now, list) && Distinct(list)
    ensures |times| == |list|
  {
    DistinctSize(list);
    forall x
      ensures x in times.Keys <==> x in Elements(list)
    {
      ElementsOf(list, x);
    }
    assert times.Keys == Elements(list);
  }

  /** `pidState` moves the requested process to the front of the list. */
  lemma TouchFollows(m: Manager, pid: int)
    requires IsLru(m)
    ensures IsLru(Touch(m, pid))
  {
    hide Descends, Kept, Mru, Roomy, Distinct, Times;
    var list := Mru(m.requests);
    var was := Kept(m.config, list);
    MruDistinct(m.requests);
    KeptAfter(m.config, list, pid);
    MruStep(m.requests, pid);
    assert pid in Times(m.pids) <==> pid in was;
    if pid in m.pids {
      FollowsFront(Times(m.pids), m.seqNo + 1, was, pid);
      TimesUpdate(m.pids, pid, m.pids[pid].(lastSeen := m.seqNo + 1));
    } else {
      KeptDistinct(m.config, list);
      NewcomerFollows(m, pid, was);
    }
  }

  lemma MruStep(history: seq<int>, x: int)
    ensures Mru(history + [x]) == [x] + Remove(Mru(history), x)
  {
    assert (history + [x])[..|history|] == history;
  }

  lemma KeptDistinct(config: Config, list: seq<int>)
    requires Distinct(list)
    ensures Distinct(Kept(config, list)) && (config.adaptive ==> |Kept(config, list)| <= MAX_PIDS)
  {
    assert list == Kept(config, list) + list[|Kept(config, list)|..];
    DistinctSplit(Kept(config, list), list[|Kept(config, list)|..]);
  }

  lemma TimesUpdate(pids: map<int, Process>, p: int, s: Process)
    ensures Times(pids[p := s]) == Times(pids)[p := s.lastSeen]
  {
  }

  lemma NewcomerFollows(m: Manager, pid: int, was: seq<int>)
    requires Follows(Times(m.pids), m.seqNo, was) && pid !in m.pids && Distinct(was)
    requires m.config.adaptive ==> |was| <= MAX_PIDS
    ensures Follows(Times(Touch(m, pid).pids), m.seqNo + 1,
                    [pid] + if m.config.adaptive && |was| == MAX_PIDS then was[..MAX_PIDS - 1] else was)
  {
    hide Descends, Distinct, Times;
    var now := m.seqNo + 1;
    FollowsSize(Times(m.pids), m.seqNo, was);
    assert |Times(m.pids).Keys| == |m.pids.Keys|;
    var r := m.(seqNo := now, requests := m.requests + [pid]);
    var kept := was;
    if m.config.adaptive && |was| == MAX_PIDS {
      FollowsRemove(m.pids, m.seqNo, was);
      kept := was[..MAX_PIDS - 1];
      assert Roomy(r).pids == m.pids - {Oldest(m.pids)};
    }
    assert pid !in Times(Roomy(r).pids);
    RemoveAbsent(kept, pid);
    FollowsFront(Times(Roomy(r).pids), now, kept, pid);
    TimesUpdate(Roomy(r).pids, pid, NewProcess(now));
  }

  // ---- nothing else touches the table ----

  ghost predicate SameTable(m: Manager, n: Manager)
  {
    && n.config == m.config && n.requests == m.requests && n.seqNo == m.seqNo
    && Times(n.pids) == Times(m.pids)
  }

  lemma SameTableKeeps(m: Manager, n: Manager)
    requires IsLru(m) && SameTable(m, n)
    ensures IsLru(n)
  {
    hide Mru, Kept, Follows, Times;
  }

  lemma UpdateSame(m: Manager, p: int, s: Process)
    requires p in m.pids && s.lastSeen == m.pids[p].lastSeen
    ensures SameTable(m, m.(pids := m.pids[p := s]))
  {
    TimesUpdate(m.pids, p, s);
    assert Times(m.pids)[p := s.lastSeen] == Times(m.pids);
  }

  lemma DropSame(m: Manager, key: Key)
    ensures SameTable(m, DropStack(m, key))
  {
    if key.pid in m.pids { UpdateSame(m, key.pid, m.pids[key.pid].Without(key.goid)); }
  }

  lemma RetainFollows(m: Manager, ev: TraceEvent)
    requires IsLru(m)
    ensures IsLru(Retain(m, ev).manager)
  {
    hide IsLru, Touch, SameTable;
    if ev.ip in m.config.probes {
      TouchFollows(m, ev.key.pid);
      var t := Touch(m, ev.key.pid);
      var s := t.pids[ev.key.pid];
      var r := Retain(m, ev);
      AppendSeen(m.config, s, ev, m.config.probes[ev.ip]);
      if r.kept {
        UpdateSame(t, ev.key.pid, r.manager.pids[ev.key.pid]);
        PendingSame(t, t.(pids := t.pids[ev.key.pid := r.manager.pids[ev.key.pid]]), r.manager);
        SameTableKeeps(t, r.manager);
      }
    }
  }

  lemma AppendSeen(config: Config, s: Process, ev: TraceEvent, probe: Probe)
    ensures Append(config, s, ev, probe).lastSeen == s.lastSeen
  {
  }

  lemma PendingSame(m: Manager, n: Manager, n': Manager)
    requires SameTable(m, n) && n'.config == n.config && n'.requests == n.requests && n'.seqNo == n.seqNo && n'.pids == n.pids
    ensures SameTable(m, n')
  {
  }

  lemma AddFollows(m: Manager, ev: TraceEvent)
    requires IsLru(m)
    ensures IsLru(Add(m, ev).manager)
  {
    hide IsLru, DropStack, Retain;
    if !m.config.adaptive {
      RetainFollows(m, ev);
    } else {
      DropSame(m, ev.key);
      var r := ResetStale(m, ev);
      SameTableKeeps(m, r);
      var u := r.(suppressed := r.suppressed - {ev.key});
      SameTableKeeps(r, u);
      DropSame(u, ev.key);
      SameTableKeeps(u, OverBudget(u, ev));
      RetainFollows(u, ev);
      if ev.key in r.suppressed && !ev.flags.start { SameTableKeeps(r, Add(m, ev).manager); }
    }
  }

  lemma AggregateFollows(m: Manager, key: Key)
    requires IsLru(m)
    ensures IsLru(AggregateStack(m, key))
  {
    hide IsLru, Touch, SameTable, Replayed;
    TouchFollows(m, key.pid);
    var t := Touch(m, key.pid);
    var s := t.pids[key.pid];
    UpdateSame(t, key.pid, s.(records := s.records + Replayed(s.Events(key.goid)).records));
    SameTableKeeps(t, AggregateStack(m, key));
  }

  lemma ConcludeFollows(m: Manager, ev: TraceEvent)
    requires IsLru(m)
    ensures IsLru(Conclude(m, ev))
  {
    hide IsLru, Touch, AggregateStack;
    TouchFollows(m, ev.key.pid);
    var t := Touch(m, ev.key.pid);
    SameTableKeeps(t, t.(droppedStacks := t.droppedStacks + 1, droppedIncomplete := t.droppedIncomplete + 1));
    AggregateFollows(t, ev.key);
  }

  lemma DropFollows(m: Manager, key: Key)
    requires IsLru(m)
    ensures IsLru(DropStack(m, key))
  {
    DropSame(m, key);
    SameTableKeeps(m, DropStack(m, key));
  }

  lemma HandleFollows(m: Manager, ev: TraceEvent)
    requires IsLru(m)
    ensures IsLru(Handled(m, ev))
  {
    hide IsLru, Touch, DropStack, Add, Conclude, Closes;
    var u := m.(suppressed := m.suppressed - {ev.key});
    SameTableKeeps(m, u);
    DropFollows(u, ev.key);
    var d := DropStack(u, ev.key);
    SameTableKeeps(d, d.(droppedStacks := d.droppedStacks + 1, droppedAborted := d.droppedAborted + 1));
    AddFollows(m, ev);
    var a := Add(m, ev).manager;
    TouchFollows(a, ev.key.pid);
    var c := Touch(a, ev.key.pid);
    ConcludeFollows(c, ev);
    DropFollows(Conclude(c, ev), ev.key);
  }

  lemma {:induction false} RunFollows(config: Config, evs: seq<TraceEvent>)
    ensures IsLru(HandledAll(NewManager(config), evs))
  {
    hide Handled;
    if evs != [] {
      RunFollows(config, evs[..|evs| - 1]);
      HandleFollows(HandledAll(NewManager(config), evs[..|evs| - 1]), evs[|evs| - 1]);
    }
  }

  /** After any stream of events a process is in the table exactly if it has been requested, and,
   *  in adaptive mode, fewer than 64 others have been requested since: the 64 most recently
   *  requested ones are kept, all of them if there were fewer. */
  lemma TableIsLru(config: Config, evs: seq<TraceEvent>, p: int)
    ensures var m := HandledAll(NewManager(config), evs);
            p in m.pids <==>
              p in m.requests && (config.adaptive ==> |Newer(m.requests, p)| < 64)
  {
    hide HandledAll, Mru, Newer, Distinct, Before, Descends;
    RunFollows(config, evs);
    var m := HandledAll(NewManager(config), evs);
    var list := Mru(m.requests);
    MruDistinct(m.requests);
    MruMember(m.requests, p);
    BeforeIsNewer(m.requests, p);
    BeforeDistinct(list, p);
    DistinctSize(Before(list, p));
    assert p in Times(m.pids) <==> p in Kept(m.config, list);
    if |list| > MAX_PIDS { BeforeLength(list, p, MAX_PIDS); } else if p in list { BeforeShort(list, p); }
  }

  lemma {:induction false} BeforeShort(s: seq<int>, p: int)
    requires p in s
    ensures |Before(s, p)| < |s|
  {
    if s[0] != p { BeforeShort(s[1..], p); }
  }

  /** Making room evicts the one process with 63 others requested since; its events leave the
   *  budget, its suppressed goroutines are forgotten, and nothing else is touched. */
  lemma EvictionIsLocal(m: Manager, pid: int) returns (victim: int)
    requires IsLru(m) && Accounted(m) && m.config.adaptive && |m.pids| == MAX_PIDS && pid !in m.pids
    ensures victim in m.pids && |Newer(m.requests, victim)| == MAX_PIDS - 1
    ensures var t := Touch(m, pid);
            && t.pids == (m.pids - {victim})[pid := NewProcess(m.seqNo + 1)]
            && t.pending == m.pending - |SlotsOf(victim, m.pids[victim])|
            && (forall k :: k in t.suppressed <==> k in m.suppressed && k.pid != victim)
            && t.evicted == m.evicted + 1
            && t.droppedStacks == m.droppedStacks
  {
    hide Mru, Newer, Distinct, Descends, SlotsOf, Slots;
    var list := Mru(m.requests);
    var was := Kept(m.config, list);
    MruDistinct(m.requests);
    KeptDistinct(m.config, list);
    FollowsSize(Times(m.pids), m.seqNo, was);
    assert |Times(m.pids).Keys| == |m.pids.Keys|;
    FollowsRemove(m.pids, m.seqNo, was);
    victim := Oldest(m.pids);
    SlotsRemove(m.pids, victim);
    BeforeIsNewer(m.requests, victim);
    BeforeDistinct(list, victim);
    DistinctSize(Before(list, victim));
    assert list[MAX_PIDS - 1] == victim;
    BeforeIndex(list, MAX_PIDS - 1);
  }

  lemma {:induction false} BeforeIndex(s: seq<int>, k: nat)
    requires Distinct(s) && k < |s|
    ensures |Before(s, s[k])| == k
  {
    if k > 0 {
      BeforeIndex(s[1..], k - 1);
      assert s[1..][k - 1] == s[k];
      assert s[k] in s[1..];
    }
  }
}
